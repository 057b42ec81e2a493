/** The gperf-style solver: give every (position, byte) symbol a value, one after the other and for good,
    so that the sums of a key's values and its length fall on different slots. */
module PartitionSolver {
  import opened Wrappers
  import opened Words
  import opened Numbers
  import opened SlotTable
  import opened Positions
  import opened Ranking
  import opened Congruential

  type Row = seq<nat>

  // ---------------------------------------------------------------- the hash being built

  /** The bytes of a key at the chosen positions. */
  function CharsAt(key: Bytes, positions: seq<nat>): (chars: seq<nat>)
    ensures |chars| == |positions| && forall p: nat | p < |positions| :: chars[p] == CharAt(key, positions[p])
  {
    seq(|positions|, p requires 0 <= p < |positions| => CharAt(key, positions[p]))
  }

  /** One table of 256 values per position. */
  ghost predicate Tables(asso: seq<Row>, count: nat) {
    count <= |asso| && forall p: nat | p < count :: |asso[p]| == 256
  }

  /** What a symbol adds to the hash: nothing where the key has no such byte. */
  function Term(chars: seq<nat>, asso: seq<Row>, p: nat): nat
    requires Tables(asso, |chars|) && p < |chars|
  {
    if chars[p] < 256 then asso[p][chars[p]] else 0
  }

  /** The values of the first n symbols of a key. */
  function Sum(chars: seq<nat>, asso: seq<Row>, n: nat): nat
    requires Tables(asso, |chars|) && n <= |chars|
  {
    if n == 0 then 0 else Sum(chars, asso, n - 1) + Term(chars, asso, n - 1)
  }

  /** The hash of a key: its length plus the values of its symbols. */
  function GperfHash(key: Bytes, positions: seq<nat>, asso: seq<Row>): nat
    requires Tables(asso, |positions|)
  {
    |key| + Sum(CharsAt(key, positions), asso, |positions|)
  }

  /** The slots of all keys. */
  function GperfSlots(keys: seq<Bytes>, positions: seq<nat>, asso: seq<Row>, m: nat): (slots: seq<nat>)
    requires Tables(asso, |positions|) && m > 0
    ensures |slots| == |keys|
    ensures forall i: nat | i < |keys| :: slots[i] == GperfHash(keys[i], positions, asso) % m < m
  {
    seq(|keys|, i requires 0 <= i < |keys| => GperfHash(keys[i], positions, asso) % m)
  }

  /** The tables with the value of one symbol set. */
  function WithValue(asso: seq<Row>, sp: nat, sc: nat, v: nat): (r: seq<Row>)
    requires sp < |asso| && sc < |asso[sp]|
  {
    var row: Row := asso[sp][sc := v];
    asso[sp := row]
  }

  /** A value given to a symbol that had none is added to exactly the keys with that symbol. */
  lemma {:induction false} SumAfterValue(chars: seq<nat>, asso: seq<Row>, sp: nat, sc: nat, v: nat, n: nat)
    requires Tables(asso, |chars|) && sp < |chars| && sc < 256 && n <= |chars| && asso[sp][sc] == 0
    ensures Tables(WithValue(asso, sp, sc, v), |chars|)
    ensures Sum(chars, WithValue(asso, sp, sc, v), n) ==
      Sum(chars, asso, n) + if sp < n && chars[sp] == sc then v else 0
  {
    if n > 0 {
      SumAfterValue(chars, asso, sp, sc, v, n - 1);
    }
  }

  lemma {:induction false} SumOfZeros(chars: seq<nat>, asso: seq<Row>, n: nat)
    requires Tables(asso, |chars|) && n <= |chars|
    requires forall p: nat, c: nat | p < |chars| && c < 256 :: asso[p][c] == 0
    ensures Sum(chars, asso, n) == 0
  {
    if n > 0 { SumOfZeros(chars, asso, n - 1); }
  }

  // ---------------------------------------------------------------- signatures

  datatype Symbol = Symbol(pos: nat, ch: nat)

  /** Key's symbol at position p is a byte that has not got its value yet. */
  predicate Open(chars: seq<nat>, determined: set<Symbol>, p: nat)
    requires p < |chars|
  {
    chars[p] < 256 && Symbol(p, chars[p]) !in determined
  }

  /** The salts of the first n undetermined symbols of a key, xor-ed. */
  function Signature(chars: seq<nat>, determined: set<Symbol>, salt: seq<Row>, n: nat): nat
    requires Tables(salt, |chars|) && n <= |chars|
  {
    if n == 0 then 0
    else
      Xor(Signature(chars, determined, salt, n - 1),
          if Open(chars, determined, n - 1) then salt[n - 1][chars[n - 1]] else 0)
  }

  /** Determining one more symbol takes its salt out of the signature of exactly the keys that have it. */
  lemma {:induction false} SignatureAfterDetermined(chars: seq<nat>, determined: set<Symbol>, salt: seq<Row>,
      sp: nat, sc: nat, n: nat)
    requires Tables(salt, |chars|) && n <= |chars| && sp < |chars| && sc < 256 && Symbol(sp, sc) !in determined
    ensures Signature(chars, determined + {Symbol(sp, sc)}, salt, n) ==
      if sp < n && chars[sp] == sc then Xor(Signature(chars, determined, salt, n), salt[sp][sc])
      else Signature(chars, determined, salt, n)
  {
    if n > 0 {
      var after, x := determined + {Symbol(sp, sc)}, salt[sp][sc];
      SignatureAfterDetermined(chars, determined, salt, sp, sc, n - 1);
      var before := Signature(chars, determined, salt, n - 1);
      var t := if Open(chars, determined, n - 1) then salt[n - 1][chars[n - 1]] else 0;
      if n - 1 == sp && chars[sp] == sc {
        XorAssociates(before, x, x);
        XorCancels(x);
      } else {
        assert Open(chars, after, n - 1) == Open(chars, determined, n - 1);
        if sp < n && chars[sp] == sc {
          SwapLastTwo(before, x, t);
        }
      }
    }
  }

  lemma SwapLastTwo(a: nat, x: nat, t: nat)
    ensures Xor(Xor(a, x), t) == Xor(Xor(a, t), x)
  {
    XorAssociates(a, x, t);
    XorAssociates(a, t, x);
    XorCommutes(x, t);
  }

  /** Two keys have the same set of still-undetermined symbols. */
  ghost predicate SameOpen(a: seq<nat>, b: seq<nat>, determined: set<Symbol>)
    requires |a| == |b|
  {
    forall p: nat | p < |a| ::
      Open(a, determined, p) == Open(b, determined, p) && (Open(a, determined, p) ==> a[p] == b[p])
  }

  /** They then have the same signature; a collision of salts can only merge classes, never split one. */
  lemma {:induction false} SameOpenSameSignature(a: seq<nat>, b: seq<nat>, determined: set<Symbol>, salt: seq<Row>,
      n: nat)
    requires |a| == |b| && Tables(salt, |a|) && n <= |a| && SameOpen(a, b, determined)
    ensures Signature(a, determined, salt, n) == Signature(b, determined, salt, n)
  {
    if n > 0 {
      SameOpenSameSignature(a, b, determined, salt, n - 1);
    }
  }

  /** With every symbol determined, every signature is zero. */
  lemma {:induction false} FinalSignature(chars: seq<nat>, determined: set<Symbol>, salt: seq<Row>, n: nat)
    requires Tables(salt, |chars|) && n <= |chars|
    requires forall p: nat | p < |chars| :: !Open(chars, determined, p)
    ensures Signature(chars, determined, salt, n) == 0
  {
    if n > 0 {
      FinalSignature(chars, determined, salt, n - 1);
      XorZero(0);
    }
  }

  // ---------------------------------------------------------------- salts

  const SALT_SEED: nat := 0x9e3779b97f4a7c15
  const SALT_FACTOR: nat := 6364136223846793005
  const SALT_STEP: nat := 1442695040888963407

  /** A linear congruential generator after n steps. */
  function SaltState(n: nat): (s: nat)
    ensures s < TWO_TO_THE_64
  {
    if n == 0 then SALT_SEED else (SaltState(n - 1) * SALT_FACTOR + SALT_STEP) % TWO_TO_THE_64
  }

  function SaltRow(p: nat): (row: Row)
    ensures |row| == 256 && forall c: nat | c < 256 :: row[c] == SaltState(256 * p + c + 1)
  {
    seq<nat>(256, c requires 0 <= c => SaltState(256 * p + c + 1))
  }

  /** One salt per (position, byte), in the order in which they are drawn. */
  function Salts(count: nat): (salt: seq<Row>)
    ensures |salt| == count && Tables(salt, count) && forall p: nat | p < count :: salt[p] == SaltRow(p)
  {
    seq(count, p requires 0 <= p => SaltRow(p))
  }

  method MakeSalts(count: nat) returns (salt: seq<Row>)
    ensures salt == Salts(count)
  {
    hide SaltState, SaltRow;
    salt := [];
    var s := SALT_SEED;
    FirstState();
    for p := 0 to count
      invariant salt == Salts(p) && s == SaltState(256 * p)
    {
      var row: Row := [];
      for c := 0 to 256
        invariant |row| == c && s == SaltState(256 * p + c) && forall d: nat | d < c :: row[d] == SaltRow(p)[d]
      {
        s := NextSalt(256 * p + c, s);
        assert s == SaltRow(p)[c];
        row := row + [s];
      }
      assert row == SaltRow(p);
      salt := salt + [row];
    }
  }

  lemma FirstState()
    ensures SaltState(0) == SALT_SEED
  {
  }

  /** One step of the generator. */
  method NextSalt(ghost n: nat, s: nat) returns (s': nat)
    requires s == SaltState(n)
    ensures s' == SaltState(n + 1)
  {
    s' := (s * SALT_FACTOR + SALT_STEP) % TWO_TO_THE_64;
  }

  lemma {:induction false} SaltStateIsOrbit(n: nat)
    ensures SaltState(n) == Orbit(SALT_FACTOR, SALT_STEP, SALT_SEED, n) % TWO_TO_THE_64
  {
    if n == 0 {
      ModUnique(SALT_SEED, 0, SALT_SEED, TWO_TO_THE_64);
    } else {
      SaltStateIsOrbit(n - 1);
      ReducedStep(Orbit(SALT_FACTOR, SALT_STEP, SALT_SEED, n - 1), SALT_FACTOR, SALT_STEP, TWO_TO_THE_64);
    }
  }

  lemma ReducedStep(x: int, a: int, c: int, m: nat)
    requires m > 0
    ensures ((x % m) * a + c) % m == (a * x + c) % m
  {
    var q := x / m;
    assert x == q * m + x % m;
    assert a * x + c == (x % m) * a + c + (a * q) * m;
    ModShift((x % m) * a + c, a * q, m);
  }

  /** The generator repeats no state for 2^64 steps. */
  lemma SaltStatesDiffer(i: nat, j: nat)
    requires i < j < i + TWO_TO_THE_64
    ensures SaltState(i) != SaltState(j)
  {
    Pow2Of64();
    hide SaltState, Orbit, Pow2;
    SaltStateIsOrbit(i);
    SaltStateIsOrbit(j);
    StatesDiffer(SALT_FACTOR, SALT_STEP, SALT_SEED, i, j, 64);
  }

  /** So no two symbols have the same salt. */
  lemma SaltsDiffer(count: nat, a: Symbol, b: Symbol)
    requires count <= 256 && a.pos < count && b.pos < count && a.ch < 256 && b.ch < 256 && a != b
    ensures Salts(count)[a.pos][a.ch] != Salts(count)[b.pos][b.ch]
  {
    hide SaltState;
    var i, j := 256 * a.pos + a.ch + 1, 256 * b.pos + b.ch + 1;
    if i < j { SaltStatesDiffer(i, j); } else { SaltStatesDiffer(j, i); }
  }

  lemma FirstSalt()
    ensures SaltState(1) == 3160801866142127 * 1024
  {
    ModUnique(SALT_SEED * SALT_FACTOR + SALT_STEP, 3933252495371727149, 3160801866142127 * 1024, TWO_TO_THE_64);
  }

  /** No salt of the first four positions is zero: the first one is a multiple of 1024, and the next multiple of 1024
      comes 1024 steps later. */
  lemma SaltIsNotZero(n: nat)
    requires 1 <= n <= 1024
    ensures SaltState(n) != 0
  {
    hide SaltState, Orbit, Pow2;
    FirstSalt();
    if n > 1 {
      Pow2Of10();
      LowBitsOfSalt(1);
      LowBitsOfSalt(n);
      StatesDiffer(SALT_FACTOR, SALT_STEP, SALT_SEED, 1, n, 10);
    }
  }

  lemma Pow2Of10()
    ensures Pow2(10) == 1024
  {
    Pow2Of8();
    Pow2Add(8, 2);
  }

  lemma LowBitsOfSalt(n: nat)
    ensures SaltState(n) % 1024 == Orbit(SALT_FACTOR, SALT_STEP, SALT_SEED, n) % 1024
  {
    hide SaltState, Orbit;
    SaltStateIsOrbit(n);
    var k := 0x40_0000_0000_0000;
    assert k * 1024 == TWO_TO_THE_64;
    ModOfMod(Orbit(SALT_FACTOR, SALT_STEP, SALT_SEED, n), 1024, k);
  }

  // ---------------------------------------------------------------- one symbol's value

  /** Keys of one class are on different slots. */
  ghost predicate Apart(sig: seq<nat>, residue: seq<nat>)
    requires |sig| == |residue|
  {
    forall i: nat, j: nat | i < j < |sig| && sig[i] == sig[j] :: residue[i] != residue[j]
  }

  /** The slots the keys would get if the symbol had value v. */
  function Residues(phash: seq<nat>, hit: seq<bool>, v: nat, m: nat): (r: seq<nat>)
    requires |phash| == |hit| && m > 0
    ensures |r| == |phash|
    ensures forall k: nat | k < |r| :: r[k] == (phash[k] + if hit[k] then v else 0) % m < m
  {
    seq(|phash|, k requires 0 <= k < |phash| => (phash[k] + if hit[k] then v else 0) % m)
  }

  /** order lists all keys, by signature. */
  ghost predicate BySignature(order: seq<nat>, sig: seq<nat>) {
    && |order| == |sig| && Distinct(order)
    && (forall x: nat | x < |order| :: order[x] < |sig|)
    && (forall x: nat, y: nat | x < y < |order| :: sig[order[x]] <= sig[order[y]])
  }

  /** The end of the run of equal signatures that starts at ci. */
  method RunEnd(sig: seq<nat>, order: seq<nat>, ci: nat) returns (cj: nat)
    requires BySignature(order, sig) && ci < |order|
    ensures ci < cj <= |order|
    ensures forall x: nat | ci <= x < cj :: sig[order[x]] == sig[order[ci]]
    ensures cj < |order| ==> sig[order[cj]] > sig[order[ci]]
  {
    cj := ci;
    while cj < |order| && sig[order[cj]] == sig[order[ci]]
      invariant ci <= cj <= |order|
      invariant forall x: nat | ci <= x < cj :: sig[order[x]] == sig[order[ci]]
    {
      cj := cj + 1;
    }
  }

  /** Marks the slots of one run with a fresh stamp; a slot that already carries the stamp is a collision. */
  method RunCollides(residue: seq<nat>, order: seq<nat>, ci: nat, cj: nat, slotGen: array<nat>, gen: nat)
    returns (collision: bool)
    requires ci <= cj <= |order| && forall x: nat | x < |order| :: order[x] < |residue|
    requires forall k: nat | k < |residue| :: residue[k] < slotGen.Length
    requires forall s: nat | s < slotGen.Length :: slotGen[s] < gen
    modifies slotGen
    ensures collision <==> exists x: nat, y: nat :: ci <= x < y < cj && residue[order[x]] == residue[order[y]]
    ensures forall s: nat | s < slotGen.Length :: slotGen[s] <= gen
  {
    for x := ci to cj
      invariant forall s: nat | s < slotGen.Length :: slotGen[s] <= gen
      invariant forall s: nat | s < slotGen.Length && slotGen[s] == gen ::
        exists y: nat :: ci <= y < x && residue[order[y]] == s
      invariant forall y: nat | ci <= y < x :: slotGen[residue[order[y]]] == gen
      invariant forall y: nat, z: nat | ci <= y < z < x :: residue[order[y]] != residue[order[z]]
    {
      var h := residue[order[x]];
      if slotGen[h] == gen {
        return true;
      }
      slotGen[h] := gen;
    }
    collision := false;
  }

  /** Scans all runs of equal signatures. */
  method Collides(sig: seq<nat>, residue: seq<nat>, order: seq<nat>, slotGen: array<nat>, gen: nat)
    returns (collision: bool, gen': nat)
    requires BySignature(order, sig) && |residue| == |sig|
    requires forall k: nat | k < |residue| :: residue[k] < slotGen.Length
    requires forall s: nat | s < slotGen.Length :: slotGen[s] <= gen
    modifies slotGen
    ensures collision <==> !Apart(sig, residue)
    ensures forall s: nat | s < slotGen.Length :: slotGen[s] <= gen'
  {
    collision, gen' := false, gen;
    var ci := 0;
    while ci < |order| && !collision
      invariant ci <= |order|
      invariant forall s: nat | s < slotGen.Length :: slotGen[s] <= gen'
      invariant ci < |order| ==> forall x: nat | x < ci :: sig[order[x]] < sig[order[ci]]
      invariant !collision ==> forall x: nat, y: nat | x < y < ci && sig[order[x]] == sig[order[y]] ::
        residue[order[x]] != residue[order[y]]
      invariant collision ==> !Apart(sig, residue)
      decreases |order| - ci
    {
      var cj := RunEnd(sig, order, ci);
      if cj - ci > 1 {
        gen' := gen' + 1;
        collision := RunCollides(residue, order, ci, cj, slotGen, gen');
        if collision {
          var x: nat, y: nat :| ci <= x < y < cj && residue[order[x]] == residue[order[y]];
          CollisionIsReal(sig, residue, order, x, y);
        }
      }
      ci := cj;
    }
    if !collision {
      ScanIsComplete(sig, residue, order);
    }
  }

  lemma CollisionIsReal(sig: seq<nat>, residue: seq<nat>, order: seq<nat>, x: nat, y: nat)
    requires BySignature(order, sig) && |residue| == |sig| && x < y < |order|
    requires sig[order[x]] == sig[order[y]] && residue[order[x]] == residue[order[y]]
    ensures !Apart(sig, residue)
  {
  }

  lemma ScanIsComplete(sig: seq<nat>, residue: seq<nat>, order: seq<nat>)
    requires BySignature(order, sig) && |residue| == |sig|
    requires forall x: nat, y: nat | x < y < |order| && sig[order[x]] == sig[order[y]] ::
      residue[order[x]] != residue[order[y]]
    ensures Apart(sig, residue)
  {
    DistinctBelow(order, |sig|);
    forall i: nat, j: nat | i < j < |sig| && sig[i] == sig[j] ensures residue[i] != residue[j] {
      assert i in order && j in order;
      var x: nat :| x < |order| && order[x] == i;
      var y: nat :| y < |order| && order[y] == j;
      if x < y {} else { assert y < x; }
    }
  }

  /** The first value below the limit that keeps every class apart. */
  method SearchValue(sig: seq<nat>, order: seq<nat>, phash: seq<nat>, hit: seq<bool>, m: nat, limit: nat,
                     slotGen: array<nat>, gen: nat) returns (found: bool, v: nat, gen': nat)
    requires BySignature(order, sig) && |phash| == |hit| == |sig| && m > 0 && slotGen.Length == m <= limit
    requires forall s: nat | s < slotGen.Length :: slotGen[s] <= gen
    modifies slotGen
    ensures found ==> v < limit && Apart(sig, Residues(phash, hit, v, m))
    ensures found ==> forall u: nat | u < v :: !Apart(sig, Residues(phash, hit, u, m))
    ensures !found ==> forall u: nat :: !Apart(sig, Residues(phash, hit, u, m))
    ensures forall s: nat | s < slotGen.Length :: slotGen[s] <= gen'
  {
    gen', v := gen, 0;
    while v < limit
      invariant v <= limit
      invariant forall u: nat | u < v :: !Apart(sig, Residues(phash, hit, u, m))
      invariant forall s: nat | s < slotGen.Length :: slotGen[s] <= gen'
    {
      var collision;
      collision, gen' := Collides(sig, Residues(phash, hit, v, m), order, slotGen, gen');
      if !collision {
        return true, v, gen';
      }
      v := v + 1;
    }
    found := false;
    forall u: nat ensures !Apart(sig, Residues(phash, hit, u, m)) {
      ResiduesRepeat(phash, hit, u, m);
    }
  }

  /** Only the value modulo m matters: a search over m values covers them all. */
  lemma ResiduesRepeat(phash: seq<nat>, hit: seq<bool>, v: nat, m: nat)
    requires |phash| == |hit| && m > 0
    ensures v % m < m && Residues(phash, hit, v, m) == Residues(phash, hit, v % m, m)
  {
    forall k: nat | k < |phash| ensures Residues(phash, hit, v, m)[k] == Residues(phash, hit, v % m, m)[k] {
      ModAbsorb(v, phash[k], m);
    }
  }

  // ---------------------------------------------------------------- insertion sort

  /** Restores the order by signature after some signatures changed. */
  method SortBySignature(order: array<nat>, sig: seq<nat>)
    requires order.Length == |sig| && Distinct(order[..]) && forall x: nat | x < order.Length :: order[x] < |sig|
    modifies order
    ensures BySignature(order[..], sig)
  {
    var i := 1;
    while i < order.Length
      invariant 1 <= i
      invariant Distinct(order[..]) && forall x: nat | x < order.Length :: order[x] < |sig|
      invariant forall x: nat, y: nat | x < y < i && y < order.Length :: sig[order[x]] <= sig[order[y]]
    {
      Insert(order, sig, i);
      i := i + 1;
    }
  }

  /** Moves the entry at i down to its place among the sorted entries before it. */
  method Insert(order: array<nat>, sig: seq<nat>, i: nat)
    requires i < order.Length == |sig| && Distinct(order[..]) && forall x: nat | x < order.Length :: order[x] < |sig|
    requires forall x: nat, y: nat | x < y < i :: sig[order[x]] <= sig[order[y]]
    modifies order
    ensures Distinct(order[..]) && forall x: nat | x < order.Length :: order[x] < |sig|
    ensures forall x: nat, y: nat | x < y <= i :: sig[order[x]] <= sig[order[y]]
  {
    hide Distinct;
    var x, j := order[i], i;
    while j > 0 && sig[order[j - 1]] > sig[x]
      invariant j <= i
      invariant forall k: nat | k < order.Length :: order[k] == old(order[if j < k <= i then k - 1 else k])
      invariant forall k: nat | j < k <= i :: sig[order[k]] > sig[x]
    {
      order[j] := order[j - 1];
      j := j - 1;
    }
    order[j] := x;
    Rotated(old(order[..]), order[..], j, i);
  }

  /** Where the entry at k was before the entry at i was moved down to j. */
  function CameFrom(j: nat, i: nat, k: nat): nat {
    if k == j then i else if j < k <= i then k - 1 else k
  }

  /** Moving one entry down past others keeps all entries different. */
  lemma Rotated(s: seq<nat>, t: seq<nat>, j: nat, i: nat)
    requires j <= i < |s| == |t| && Distinct(s)
    requires forall k: nat | k < |s| :: t[k] == s[CameFrom(j, i, k)]
    ensures Distinct(t)
  {
  }

  // ---------------------------------------------------------------- the symbols

  /** The (position, byte) pairs that occur in some key. */
  ghost predicate Occurs(chars: seq<seq<nat>>, count: nat, s: Symbol) {
    s.pos < count && s.ch < 256 && exists k: nat :: k < |chars| && s.pos < |chars[k]| && chars[k][s.pos] == s.ch
  }

  /** All rows have one symbol slot per position. */
  ghost predicate Rectangular(chars: seq<seq<nat>>, count: nat) {
    forall k: nat | k < |chars| :: |chars[k]| == count
  }

  /** The first n keys that have a symbol. */
  ghost function Owners(chars: seq<seq<nat>>, s: Symbol, n: nat): set<nat> {
    set k: nat | k < n && k < |chars| && s.pos < |chars[k]| && chars[k][s.pos] == s.ch
  }

  ghost function Frequency(chars: seq<seq<nat>>): Symbol -> nat {
    s => |Owners(chars, s, |chars|)|
  }

  method CountOwners(chars: seq<seq<nat>>, count: nat, s: Symbol) returns (freq: nat)
    requires Rectangular(chars, count) && s.pos < count && s.ch < 256
    ensures freq == Frequency(chars)(s) && (freq > 0 <==> Occurs(chars, count, s))
  {
    freq := 0;
    for k := 0 to |chars|
      invariant freq == |Owners(chars, s, k)|
    {
      assert Owners(chars, s, k + 1) == Owners(chars, s, k) + if chars[k][s.pos] == s.ch then {k} else {};
      if chars[k][s.pos] == s.ch { freq := freq + 1; }
    }
    OwnersExist(chars, count, s);
  }

  lemma OwnersExist(chars: seq<seq<nat>>, count: nat, s: Symbol)
    requires Rectangular(chars, count) && s.pos < count && s.ch < 256
    ensures |Owners(chars, s, |chars|)| > 0 <==> Occurs(chars, count, s)
  {
    if k: nat :| k < |chars| && chars[k][s.pos] == s.ch {
      assert k in Owners(chars, s, |chars|);
    }
    if |Owners(chars, s, |chars|)| > 0 {
      var k :| k in Owners(chars, s, |chars|);
      assert chars[k][s.pos] == s.ch;
    }
  }

  /** The occurring symbols before byte c of position p. */
  ghost function SymbolsBefore(chars: seq<seq<nat>>, p: nat, c: nat): (syms: seq<Symbol>)
    decreases p, c
  {
    if c > 0 then
      SymbolsBefore(chars, p, c - 1) + if Frequency(chars)(Symbol(p, c - 1)) > 0 then [Symbol(p, c - 1)] else []
    else if p > 0 then SymbolsBefore(chars, p - 1, 256)
    else []
  }

  lemma {:induction false} SymbolsBeforeMembers(chars: seq<seq<nat>>, count: nat, p: nat, c: nat)
    requires Rectangular(chars, count) && c <= 256 && (p < count || (p == count && c == 0))
    ensures Distinct(SymbolsBefore(chars, p, c))
    ensures forall s: Symbol :: s in SymbolsBefore(chars, p, c) <==>
      Occurs(chars, count, s) && (s.pos < p || (s.pos == p && s.ch < c))
    decreases p, c
  {
    hide Owners, Occurs, Distinct;
    if c > 0 {
      var next := Symbol(p, c - 1);
      SymbolsBeforeMembers(chars, count, p, c - 1);
      OwnersExist(chars, count, next);
      OneMoreSymbol(SymbolsBefore(chars, p, c - 1), next);
      assert SymbolsBefore(chars, p, c - 1) + [] == SymbolsBefore(chars, p, c - 1);
      assert forall s: Symbol | s.pos == p && s.ch == c - 1 :: s == next;
    } else if p > 0 {
      SymbolsBeforeMembers(chars, count, p - 1, 256);
      BytesOnly(chars, count);
    } else {
      NoSymbolsYet();
    }
  }

  /** By position, then by byte. */
  ghost predicate Earlier(a: Symbol, b: Symbol) {
    a.pos < b.pos || (a.pos == b.pos && a.ch < b.ch)
  }

  /** The enumeration goes through the positions, and through the bytes at each. */
  lemma {:induction false} SymbolsInOrder(chars: seq<seq<nat>>, count: nat, p: nat, c: nat)
    requires Rectangular(chars, count) && c <= 256 && (p < count || (p == count && c == 0))
    ensures forall x: nat, y: nat | x < y < |SymbolsBefore(chars, p, c)| ::
      Earlier(SymbolsBefore(chars, p, c)[x], SymbolsBefore(chars, p, c)[y])
    decreases p, c
  {
    if c > 0 {
      SymbolsInOrder(chars, count, p, c - 1);
      SymbolsBeforeMembers(chars, count, p, c - 1);
      var before := SymbolsBefore(chars, p, c - 1);
      hide Frequency, Occurs, Distinct;
      forall x: nat | x < |before| ensures Earlier(before[x], Symbol(p, c - 1)) {
        assert before[x] in before;
      }
    } else if p > 0 {
      SymbolsInOrder(chars, count, p - 1, 256);
    }
  }

  lemma OneMoreSymbol(syms: seq<Symbol>, s: Symbol)
    requires Distinct(syms) && s !in syms
    ensures Distinct(syms + [s])
  {
  }

  lemma NoSymbolsYet()
    ensures Distinct<Symbol>([])
  {
  }

  lemma BytesOnly(chars: seq<seq<nat>>, count: nat)
    ensures forall s: Symbol | Occurs(chars, count, s) :: s.ch < 256 && s.pos < count
  {
  }

  /** Every occurring symbol once, with its frequency. */
  method EnumerateSymbols(chars: seq<seq<nat>>, count: nat) returns (syms: seq<Symbol>, freqs: seq<nat>)
    requires Rectangular(chars, count)
    ensures Weighed(syms, freqs, Frequency(chars)) && syms == SymbolsBefore(chars, count, 0)
  {
    hide Frequency, Owners;
    syms, freqs := [], [];
    for p := 0 to count
      invariant Weighed(syms, freqs, Frequency(chars)) && syms == SymbolsBefore(chars, p, 0)
    {
      for c := 0 to 256
        invariant Weighed(syms, freqs, Frequency(chars)) && syms == SymbolsBefore(chars, p, c)
      {
        var freq := CountOwners(chars, count, Symbol(p, c));
        if freq > 0 {
          syms, freqs := syms + [Symbol(p, c)], freqs + [freq];
        }
      }
    }
  }

  /** The occurring symbols, most frequent first, as the sort leaves them. */
  ghost function SymbolOrder(chars: seq<seq<nat>>, count: nat): (syms: seq<Symbol>)
    requires Rectangular(chars, count)
    ensures Distinct(syms) && forall s: Symbol :: s in syms <==> Occurs(chars, count, s)
    ensures forall x: nat | x < |syms| :: syms[x].pos < count && syms[x].ch < 256
    ensures forall x: nat, y: nat | x < y < |syms| :: Frequency(chars)(syms[x]) >= Frequency(chars)(syms[y])
  {
    SymbolsBeforeMembers(chars, count, count, 0);
    ExchangeSortedSorts(SymbolsBefore(chars, count, 0), Frequency(chars));
    Rearranged(SymbolsBefore(chars, count, 0), ExchangeSorted(SymbolsBefore(chars, count, 0), Frequency(chars)));
    BytesOnly(chars, count);
    var syms := ExchangeSorted(SymbolsBefore(chars, count, 0), Frequency(chars));
    assert forall x: nat | x < |syms| :: syms[x] in syms;
    syms
  }

  // ---------------------------------------------------------------- the solver's state

  /** Partial hashes and signatures are what the values given so far make them. */
  ghost predicate Solving(keys: seq<Bytes>, chars: seq<seq<nat>>, count: nat, salt: seq<Row>, asso: seq<Row>,
                          determined: set<Symbol>, phash: seq<nat>, sig: seq<nat>) {
    && |chars| == |phash| == |sig| == |keys| && Rectangular(chars, count)
    && Tables(salt, count) && Tables(asso, count)
    && (forall k: nat | k < |keys| :: phash[k] == |keys[k]| + Sum(chars[k], asso, count))
    && (forall k: nat | k < |keys| :: sig[k] == Signature(chars[k], determined, salt, count))
    && (forall p: nat, c: nat | p < count && c < 256 && Symbol(p, c) !in determined :: asso[p][c] == 0)
  }

  /** The slots of partial hashes. */
  function SlotsOf(phash: seq<nat>, m: nat): (r: seq<nat>)
    requires m > 0
    ensures |r| == |phash| && forall k: nat | k < |r| :: r[k] == phash[k] % m < m
  {
    seq(|phash|, k requires 0 <= k < |phash| => phash[k] % m)
  }

  /** Keys with the same open symbols are on different slots: no later value could separate them. */
  ghost predicate OpenClassesApart(chars: seq<seq<nat>>, count: nat, determined: set<Symbol>, slots: seq<nat>)
    requires Rectangular(chars, count) && |slots| == |chars|
  {
    forall i: nat, j: nat | i < j < |chars| && SameOpen(chars[i], chars[j], determined) :: slots[i] != slots[j]
  }

  /** Separating the classes of equal signature separates the classes of equal open symbols. */
  lemma SignatureClassesSuffice(keys: seq<Bytes>, chars: seq<seq<nat>>, count: nat, salt: seq<Row>, asso: seq<Row>,
                                determined: set<Symbol>, phash: seq<nat>, sig: seq<nat>, m: nat)
    requires m > 0 && Solving(keys, chars, count, salt, asso, determined, phash, sig)
    requires Apart(sig, SlotsOf(phash, m))
    ensures OpenClassesApart(chars, count, determined, SlotsOf(phash, m))
  {
    forall i: nat, j: nat | i < j < |chars| && SameOpen(chars[i], chars[j], determined)
      ensures SlotsOf(phash, m)[i] != SlotsOf(phash, m)[j]
    {
      SameOpenSameSignature(chars[i], chars[j], determined, salt, count);
    }
  }

  /** With nothing open any more, all keys are in one class, so all slots differ. */
  lemma AllSlotsDiffer(chars: seq<seq<nat>>, count: nat, determined: set<Symbol>, slots: seq<nat>)
    requires Rectangular(chars, count) && |slots| == |chars|
    requires OpenClassesApart(chars, count, determined, slots)
    requires forall s: Symbol | Occurs(chars, count, s) :: s in determined
    ensures Distinct(slots)
  {
  }

  method TakeOutSalt(chars: seq<seq<nat>>, count: nat, s: Symbol, salt: nat, sig: array<nat>)
    requires Rectangular(chars, count) && s.pos < count && sig.Length == |chars|
    modifies sig
    ensures forall k: nat | k < |chars| ::
      sig[k] == if chars[k][s.pos] == s.ch then Xor(old(sig[k]), salt) else old(sig[k])
  {
    for k := 0 to |chars|
      invariant forall j: nat | j < k ::
        sig[j] == if chars[j][s.pos] == s.ch then Xor(old(sig[j]), salt) else old(sig[j])
      invariant forall j: nat | k <= j < |chars| :: sig[j] == old(sig[j])
    {
      if chars[k][s.pos] == s.ch { sig[k] := Xor(sig[k], salt); }
    }
  }

  method AddValue(chars: seq<seq<nat>>, count: nat, s: Symbol, v: nat, phash: array<nat>)
    requires Rectangular(chars, count) && s.pos < count && phash.Length == |chars|
    modifies phash
    ensures forall k: nat | k < |chars| :: phash[k] == old(phash[k]) + if chars[k][s.pos] == s.ch then v else 0
  {
    for k := 0 to |chars|
      invariant forall j: nat | j < k :: phash[j] == old(phash[j]) + if chars[j][s.pos] == s.ch then v else 0
      invariant forall j: nat | k <= j < |chars| :: phash[j] == old(phash[j])
    {
      if chars[k][s.pos] == s.ch { phash[k] := phash[k] + v; }
    }
  }

  /** Which keys have the symbol. */
  function Hits(chars: seq<seq<nat>>, count: nat, s: Symbol): (hit: seq<bool>)
    requires Rectangular(chars, count) && s.pos < count
    ensures |hit| == |chars| && forall k: nat | k < |chars| :: hit[k] == (chars[k][s.pos] == s.ch)
  {
    seq(|chars|, k requires 0 <= k < |chars| => chars[k][s.pos] == s.ch)
  }

  /** State after taking out the salt. */
  lemma StateAfterSalt(keys: seq<Bytes>, chars: seq<seq<nat>>, count: nat, salt: seq<Row>, asso: seq<Row>,
                       determined: set<Symbol>, phash: seq<nat>, sig: seq<nat>, sig': seq<nat>, s: Symbol)
    requires Solving(keys, chars, count, salt, asso, determined, phash, sig)
    requires s.pos < count && s.ch < 256 && s !in determined && |sig'| == |sig|
    requires forall k: nat | k < |keys| ::
      sig'[k] == if chars[k][s.pos] == s.ch then Xor(sig[k], salt[s.pos][s.ch]) else sig[k]
    ensures Solving(keys, chars, count, salt, asso, determined + {s}, phash, sig')
  {
    forall k: nat | k < |keys| ensures sig'[k] == Signature(chars[k], determined + {s}, salt, count) {
      SignatureAfterDetermined(chars[k], determined, salt, s.pos, s.ch, count);
      assert s == Symbol(s.pos, s.ch);
    }
  }

  /** State after giving the symbol its value. */
  lemma StateAfterValue(keys: seq<Bytes>, chars: seq<seq<nat>>, count: nat, salt: seq<Row>, asso: seq<Row>,
                        determined: set<Symbol>, phash: seq<nat>, phash': seq<nat>, sig: seq<nat>, s: Symbol, v: nat)
    requires Solving(keys, chars, count, salt, asso, determined, phash, sig)
    requires s.pos < count && s.ch < 256 && s in determined && asso[s.pos][s.ch] == 0 && |phash'| == |phash|
    requires forall k: nat | k < |keys| :: phash'[k] == phash[k] + if chars[k][s.pos] == s.ch then v else 0
    ensures Solving(keys, chars, count, salt, WithValue(asso, s.pos, s.ch, v), determined, phash', sig)
  {
    forall k: nat | k < |keys| ensures phash'[k] == |keys[k]| + Sum(chars[k], WithValue(asso, s.pos, s.ch, v), count) {
      SumAfterValue(chars[k], asso, s.pos, s.ch, v, count);
    }
  }

  /** The signatures of all keys. */
  ghost function Signatures(chars: seq<seq<nat>>, count: nat, determined: set<Symbol>, salt: seq<Row>): (sig: seq<nat>)
    requires Rectangular(chars, count) && Tables(salt, count)
    ensures |sig| == |chars| && forall k: nat | k < |sig| :: sig[k] == Signature(chars[k], determined, salt, count)
  {
    seq(|chars|, k requires 0 <= k < |chars| => Signature(chars[k], determined, salt, count))
  }

  /** The partial hashes once the keys hit have got the value v. */
  function Shifted(phash: seq<nat>, hit: seq<bool>, v: nat): (r: seq<nat>)
    requires |phash| == |hit|
    ensures |r| == |phash| && forall k: nat | k < |r| :: r[k] == phash[k] + if hit[k] then v else 0
  {
    seq(|phash|, k requires 0 <= k < |phash| => phash[k] + if hit[k] then v else 0)
  }

  /** The value keeps all classes apart, and is the least that does. */
  ghost predicate Least(sig: seq<nat>, phash: seq<nat>, hit: seq<bool>, m: nat, v: nat)
    requires m > 0 && |sig| == |phash| == |hit|
  {
    Apart(sig, Residues(phash, hit, v, m)) && forall u: nat | u < v :: !Apart(sig, Residues(phash, hit, u, m))
  }

  /** Whatever value the symbol gets, two keys of equal signature collide. */
  ghost predicate NoValue(sig: seq<nat>, phash: seq<nat>, hit: seq<bool>, m: nat)
    requires m > 0 && |sig| == |phash| == |hit|
  {
    forall u: nat :: !Apart(sig, Residues(phash, hit, u, m))
  }

  /** One symbol: take its salt out, re-sort, and give it the first value that keeps every class apart. When
      there is none below the limit, no value at all would do. */
  method DetermineSymbol(keys: seq<Bytes>, chars: seq<seq<nat>>, count: nat, salt: seq<Row>, asso: seq<Row>,
                         ghost determined: set<Symbol>, s: Symbol, m: nat, limit: nat,
                         phash: array<nat>, sig: array<nat>, order: array<nat>, slotGen: array<nat>, gen: nat)
    returns (found: bool, v: nat, asso': seq<Row>, gen': nat)
    requires Solving(keys, chars, count, salt, asso, determined, phash[..], sig[..])
    requires s.pos < count && s.ch < 256 && s !in determined && 0 < m == slotGen.Length <= limit
    requires order.Length == |keys| && Distinct(order[..]) && forall x: nat | x < order.Length :: order[x] < |keys|
    requires forall t: nat | t < slotGen.Length :: slotGen[t] <= gen
    requires phash != sig && phash != order && phash != slotGen && sig != order && sig != slotGen && order != slotGen
    modifies phash, sig, order, slotGen
    ensures Distinct(order[..]) && forall x: nat | x < order.Length :: order[x] < |keys|
    ensures forall t: nat | t < slotGen.Length :: slotGen[t] <= gen'
    ensures sig[..] == Signatures(chars, count, determined + {s}, salt)
    ensures found ==>
      Solving(keys, chars, count, salt, asso', determined + {s}, phash[..], sig[..]) && |asso'| == |asso|
    ensures found ==> OpenClassesApart(chars, count, determined + {s}, SlotsOf(phash[..], m))
    ensures found ==> Least(sig[..], old(phash[..]), Hits(chars, count, s), m, v)
    ensures found ==> phash[..] == Shifted(old(phash[..]), Hits(chars, count, s), v)
    ensures !found ==> NoValue(sig[..], old(phash[..]), Hits(chars, count, s), m)
  {
    hide Distinct, Apart, OpenClassesApart, BySignature, Signature, Occurs;
    TakeOutSalt(chars, count, s, salt[s.pos][s.ch], sig);
    StateAfterSalt(keys, chars, count, salt, asso, determined, phash[..], old(sig[..]), sig[..], s);
    SortBySignature(order, sig[..]);
    var hit := Hits(chars, count, s);
    found, v, gen' := SearchValue(sig[..], order[..], phash[..], hit, m, limit, slotGen, gen);
    asso' := asso;
    if found {
      asso' := WithValue(asso, s.pos, s.ch, v);
      AddValue(chars, count, s, v, phash);
      StateAfterValue(keys, chars, count, salt, asso, determined + {s}, old(phash[..]), phash[..], sig[..], s, v);
      assert SlotsOf(phash[..], m) == Residues(old(phash[..]), hit, v, m);
      SignatureClassesSuffice(keys, chars, count, salt, asso', determined + {s}, phash[..], sig[..], m);
    }
  }

  // ---------------------------------------------------------------- the run over all symbols

  /** The keys' bytes at the chosen positions. */
  function CharTable(keys: seq<Bytes>, positions: seq<nat>): (chars: seq<seq<nat>>)
    ensures |chars| == |keys| && Rectangular(chars, |positions|)
    ensures forall k: nat | k < |keys| :: chars[k] == CharsAt(keys[k], positions)
  {
    seq(|keys|, k requires 0 <= k < |keys| => CharsAt(keys[k], positions))
  }

  /** The symbols of the keys at these positions, in the order in which they get their values. */
  ghost function SymbolsOf(keys: seq<Bytes>, positions: seq<nat>): (syms: seq<Symbol>)
    ensures Distinct(syms) && forall x: nat | x < |syms| :: syms[x].pos < |positions| && syms[x].ch < 256
  {
    SymbolOrder(CharTable(keys, positions), |positions|)
  }

  /** Which keys have symbol number n. */
  ghost function HitsOf(keys: seq<Bytes>, positions: seq<nat>, n: nat): (hit: seq<bool>)
    requires n < |SymbolsOf(keys, positions)|
    ensures |hit| == |keys|
  {
    Hits(CharTable(keys, positions), |positions|, SymbolsOf(keys, positions)[n])
  }

  /** The signatures once the first n symbols are determined. */
  ghost function SignaturesAt(keys: seq<Bytes>, positions: seq<nat>, n: nat): (sig: seq<nat>)
    requires n <= |SymbolsOf(keys, positions)|
    ensures |sig| == |keys|
  {
    Signatures(CharTable(keys, positions), |positions|, Elements(SymbolsOf(keys, positions)[..n]), Salts(|positions|))
  }

  function Lengths(keys: seq<Bytes>): (lengths: seq<nat>)
    ensures |lengths| == |keys| && forall k: nat | k < |keys| :: lengths[k] == |keys[k]|
  {
    seq(|keys|, k requires 0 <= k < |keys| => |keys[k]|)
  }

  /** The partial hashes once the first symbols have these values. */
  ghost function HashesAfter(keys: seq<Bytes>, positions: seq<nat>, values: seq<nat>): (phash: seq<nat>)
    requires |values| <= |SymbolsOf(keys, positions)|
    ensures |phash| == |keys|
    decreases |values|
  {
    if values == [] then Lengths(keys)
    else
      var n := |values| - 1;
      Shifted(HashesAfter(keys, positions, values[..n]), HitsOf(keys, positions, n), values[n])
  }

  /** Every value is the least that works after those before it. */
  ghost predicate LeastValues(keys: seq<Bytes>, positions: seq<nat>, m: nat, values: seq<nat>)
    requires m > 0
    decreases |values|
  {
    |values| <= |SymbolsOf(keys, positions)| && (values == [] ||
    var n := |values| - 1;
    && LeastValues(keys, positions, m, values[..n])
    && Least(SignaturesAt(keys, positions, n + 1), HashesAfter(keys, positions, values[..n]),
             HitsOf(keys, positions, n), m, values[n]))
  }

  /** With these values given, the next symbol finds none. */
  ghost predicate StuckAfter(keys: seq<Bytes>, positions: seq<nat>, m: nat, values: seq<nat>)
    requires m > 0
  {
    var n := |values|;
    && LeastValues(keys, positions, m, values) && n < |SymbolsOf(keys, positions)|
    && NoValue(SignaturesAt(keys, positions, n + 1), HashesAfter(keys, positions, values), HitsOf(keys, positions, n),
               m)
  }

  /** The solver comes to a symbol that no value suits. */
  ghost predicate ValuesFail(keys: seq<Bytes>, positions: seq<nat>, m: nat)
    requires m > 0
  {
    exists values: seq<nat> :: StuckAfter(keys, positions, m, values)
  }

  /** All symbols have got their least values. */
  ghost predicate Solved(keys: seq<Bytes>, positions: seq<nat>, m: nat, values: seq<nat>)
    requires m > 0
  {
    LeastValues(keys, positions, m, values) && |values| == |SymbolsOf(keys, positions)|
  }

  lemma {:induction false} FirstValues(keys: seq<Bytes>, positions: seq<nat>, m: nat, values: seq<nat>, n: nat)
    requires m > 0 && LeastValues(keys, positions, m, values) && n <= |values|
    ensures LeastValues(keys, positions, m, values[..n])
  {
    if n == |values| {
      assert values[..n] == values;
    } else {
      var last := |values| - 1;
      FirstValues(keys, positions, m, values[..last], n);
      assert values[..last][..n] == values[..n];
    }
  }

  /** Least values are the only ones: there is one run. */
  lemma {:induction false} OneRun(keys: seq<Bytes>, positions: seq<nat>, m: nat, a: seq<nat>, b: seq<nat>)
    requires m > 0 && LeastValues(keys, positions, m, a) && LeastValues(keys, positions, m, b) && |a| == |b|
    ensures a == b
  {
    if a != [] {
      hide *;
      var n := |a| - 1;
      LastIsLeast(keys, positions, m, a);
      LastIsLeast(keys, positions, m, b);
      OneRun(keys, positions, m, a[..n], b[..n]);
      SameLeast(SignaturesAt(keys, positions, n + 1), HashesAfter(keys, positions, a[..n]),
                HitsOf(keys, positions, n), m, a[n], b[n]);
      assert a == a[..n] + [a[n]] && b == b[..n] + [b[n]];
    }
  }

  lemma SameLeast(sig: seq<nat>, phash: seq<nat>, hit: seq<bool>, m: nat, v: nat, w: nat)
    requires m > 0 && |sig| == |phash| == |hit| && Least(sig, phash, hit, m, v) && Least(sig, phash, hit, m, w)
    ensures v == w
  {
    hide Apart;
  }

  lemma LeastIsAValue(sig: seq<nat>, phash: seq<nat>, hit: seq<bool>, m: nat, v: nat)
    requires m > 0 && |sig| == |phash| == |hit| && Least(sig, phash, hit, m, v)
    ensures !NoValue(sig, phash, hit, m)
  {
    hide Apart;
  }

  /** A run that gets to the end has a value for every symbol on the way. */
  lemma EverySymbolHasAValue(keys: seq<Bytes>, positions: seq<nat>, m: nat, values: seq<nat>, n: nat)
    requires m > 0 && Solved(keys, positions, m, values) && n < |values|
    ensures LeastValues(keys, positions, m, values[..n])
    ensures !NoValue(SignaturesAt(keys, positions, n + 1), HashesAfter(keys, positions, values[..n]),
                     HitsOf(keys, positions, n), m)
  {
    FirstValues(keys, positions, m, values, n);
    FirstValues(keys, positions, m, values, n + 1);
    assert values[..n + 1][..n] == values[..n];
    LastIsLeast(keys, positions, m, values[..n + 1]);
    hide Least, NoValue, LeastValues, SignaturesAt, HashesAfter, HitsOf;
    LeastIsAValue(SignaturesAt(keys, positions, n + 1), HashesAfter(keys, positions, values[..n]),
                  HitsOf(keys, positions, n), m, values[n]);
  }

  /** The run is stuck or solved, never both. */
  lemma SolvedIsNotStuck(keys: seq<Bytes>, positions: seq<nat>, m: nat, values: seq<nat>)
    requires m > 0 && Solved(keys, positions, m, values)
    ensures !ValuesFail(keys, positions, m)
  {
    hide NoValue, LeastValues, SignaturesAt, HashesAfter, HitsOf;
    forall stuck: seq<nat> ensures !StuckAfter(keys, positions, m, stuck) {
      var n := |stuck|;
      if LeastValues(keys, positions, m, stuck) && n < |values| {
        EverySymbolHasAValue(keys, positions, m, values, n);
        OneRun(keys, positions, m, stuck, values[..n]);
      }
    }
  }

  lemma LastIsLeast(keys: seq<Bytes>, positions: seq<nat>, m: nat, values: seq<nat>)
    requires m > 0 && LeastValues(keys, positions, m, values) && values != []
    ensures |values| <= |SymbolsOf(keys, positions)|
    ensures LeastValues(keys, positions, m, values[..|values| - 1])
    ensures var n := |values| - 1;
      Least(SignaturesAt(keys, positions, n + 1), HashesAfter(keys, positions, values[..n]),
            HitsOf(keys, positions, n), m, values[n])
  {
    hide Least, SymbolsOf, SignaturesAt, HashesAfter, HitsOf;
  }

  /** One more symbol with its least value. */
  lemma RunGoesOn(keys: seq<Bytes>, positions: seq<nat>, m: nat, values: seq<nat>, v: nat)
    requires m > 0 && LeastValues(keys, positions, m, values) && |values| < |SymbolsOf(keys, positions)|
    requires Least(SignaturesAt(keys, positions, |values| + 1), HashesAfter(keys, positions, values),
                   HitsOf(keys, positions, |values|), m, v)
    ensures LeastValues(keys, positions, m, values + [v])
    ensures HashesAfter(keys, positions, values + [v]) ==
      Shifted(HashesAfter(keys, positions, values), HitsOf(keys, positions, |values|), v)
  {
    hide SignaturesAt, HitsOf, Least;
    assert (values + [v])[..|values|] == values;
  }

  // ---------------------------------------------------------------- the whole solver

  datatype GperfPlan = GperfPlan(positions: seq<nat>, asso: seq<Row>, slotToKey: seq<nat>)

  /** Where the program returns false. */
  datatype GperfFailure = NoPositions | NoValueFor(s: Symbol) | SlotAlreadyTaken | NotAllFilled

  /** The plan sends every key to its own slot. */
  ghost predicate GperfFits(plan: GperfPlan, keys: seq<Bytes>, m: nat, maxPositions: nat) {
    && m > 0 && |plan.positions| <= maxPositions
      && (forall p: nat | p < |plan.positions| :: Storable(plan.positions[p]))
    && Tables(plan.asso, |plan.positions|) && |plan.asso| == maxPositions && |plan.slotToKey| == m
    && Perfect(GperfSlots(keys, plan.positions, plan.asso, m), plan.slotToKey)
  }

  /** The initial signatures. */
  method InitialSignatures(chars: seq<seq<nat>>, count: nat, salt: seq<Row>) returns (sig: array<nat>)
    requires Rectangular(chars, count) && Tables(salt, count)
    ensures fresh(sig) && sig.Length == |chars|
    ensures forall k: nat | k < |chars| :: sig[k] == Signature(chars[k], {}, salt, count)
  {
    sig := new nat[|chars|];
    for k := 0 to |chars|
      invariant forall j: nat | j < k :: sig[j] == Signature(chars[j], {}, salt, count)
    {
      var s := 0;
      for p := 0 to count
        invariant s == Signature(chars[k], {}, salt, p)
        invariant forall j: nat | j < k :: sig[j] == Signature(chars[j], {}, salt, count)
      {
        XorZero(s);
        if chars[k][p] < 256 { s := Xor(s, salt[p][chars[k][p]]); }
      }
      sig[k] := s;
    }
  }

  /** If no key has a byte at any chosen position, the positions tell keys apart by length alone. */
  lemma NoSymbolsMeansLengthsDiffer(keys: seq<Bytes>, positions: seq<nat>, m: nat, slots: seq<nat>)
    requires m > 0 && Distinguishes(keys, positions, m)
    requires forall s: Symbol :: !Occurs(CharTable(keys, positions), |positions|, s)
    requires |slots| == |keys| && forall k: nat | k < |keys| :: slots[k] == |keys[k]| % m
    ensures Distinct(slots)
  {
    var chars, count := CharTable(keys, positions), |positions|;
    forall i: nat, j: nat | i < j < |keys| ensures slots[i] != slots[j] {
      assert !Alike(keys, positions, m, i, j);
      forall p: nat | p < count ensures CharAt(keys[i], positions[p]) == CharAt(keys[j], positions[p]) {
        assert !Occurs(chars, count, Symbol(p, chars[i][p])) && !Occurs(chars, count, Symbol(p, chars[j][p]));
        assert chars[i][p] == CharAt(keys[i], positions[p]) && chars[j][p] == CharAt(keys[j], positions[p]);
      }
    }
  }

  /** Nothing determined, all values zero: the partial hashes are the lengths. */
  lemma InitialState(keys: seq<Bytes>, positions: seq<nat>, salt: seq<Row>, asso: seq<Row>, phash: seq<nat>,
      sig: seq<nat>)
    requires Tables(salt, |positions|) && Tables(asso, |positions|) && |phash| == |sig| == |keys|
    requires forall p: nat, c: nat | p < |positions| && c < 256 :: asso[p][c] == 0
    requires forall k: nat | k < |keys| :: phash[k] == |keys[k]|
    requires forall k: nat | k < |keys| :: sig[k] == Signature(CharTable(keys, positions)[k], {}, salt, |positions|)
    ensures Solving(keys, CharTable(keys, positions), |positions|, salt, asso, {}, phash, sig)
  {
    forall k: nat | k < |keys| ensures Sum(CharTable(keys, positions)[k], asso, |positions|) == 0 {
      SumOfZeros(CharTable(keys, positions)[k], asso, |positions|);
    }
  }

  /** All symbols determined: the hashes are final, and the slots all differ. */
  lemma FinalState(keys: seq<Bytes>, positions: seq<nat>, salt: seq<Row>, asso: seq<Row>, determined: set<Symbol>,
                   phash: seq<nat>, sig: seq<nat>, m: nat)
    requires m > 0 && Distinguishes(keys, positions, m)
    requires Solving(keys, CharTable(keys, positions), |positions|, salt, asso, determined, phash, sig)
    requires forall s: Symbol :: s in determined <==> Occurs(CharTable(keys, positions), |positions|, s)
    requires determined != {} ==> OpenClassesApart(CharTable(keys, positions), |positions|, determined,
      SlotsOf(phash, m))
    ensures SlotsOf(phash, m) == GperfSlots(keys, positions, asso, m) && Distinct(SlotsOf(phash, m))
  {
    var chars := CharTable(keys, positions);
    forall k: nat | k < |keys| ensures SlotsOf(phash, m)[k] == GperfSlots(keys, positions, asso, m)[k] {
      assert chars[k] == CharsAt(keys[k], positions);
    }
    if determined == {} {
      forall k: nat | k < |keys| ensures Sum(chars[k], asso, |positions|) == 0 {
        NoTermNoSum(chars, |positions|, asso, k, |positions|);
      }
      NoSymbolsMeansLengthsDiffer(keys, positions, m, SlotsOf(phash, m));
    } else {
      AllSlotsDiffer(chars, |positions|, determined, SlotsOf(phash, m));
    }
  }

  lemma {:induction false} NoTermNoSum(chars: seq<seq<nat>>, count: nat, asso: seq<Row>, k: nat, n: nat)
    requires Rectangular(chars, count) && Tables(asso, count) && k < |chars| && n <= count
    requires forall s: Symbol :: !Occurs(chars, count, s)
    ensures Sum(chars[k], asso, n) == 0
  {
    if n > 0 {
      NoTermNoSum(chars, count, asso, k, n - 1);
      assert !Occurs(chars, count, Symbol(n - 1, chars[k][n - 1]));
    }
  }

  /** The occurring symbols, most frequent first. */
  method RankSymbols(chars: seq<seq<nat>>, count: nat) returns (syms: seq<Symbol>)
    requires Rectangular(chars, count)
    ensures syms == SymbolOrder(chars, count)
  {
    hide Frequency, Occurs, SymbolsBefore;
    var list, freqs := EnumerateSymbols(chars, count);
    var ranked := new Symbol[|list|](i requires 0 <= i < |list| => list[i]);
    var weights := new nat[|freqs|](i requires 0 <= i < |freqs| => freqs[i]);
    assert ranked[..] == list && weights[..] == freqs;
    ExchangeSort(ranked, weights, list, Frequency(chars));
    syms := ranked[..];
  }

  /** Determines every symbol in turn; on success all slots differ. */
  method DetermineAll(keys: seq<Bytes>, positions: seq<nat>, m: nat, maxPositions: nat)
    returns (failed: Option<Symbol>, asso: seq<Row>, slots: seq<nat>, ghost values: seq<nat>)
    requires m > 0 && 0 < |positions| <= maxPositions && Distinguishes(keys, positions, m)
    ensures failed.None? ==> Tables(asso, |positions|) && |asso| == maxPositions
    ensures failed.None? ==> slots == GperfSlots(keys, positions, asso, m) && Distinct(slots)
    ensures failed.None? ==>
      Solved(keys, positions, m, values) && slots == SlotsOf(HashesAfter(keys, positions, values), m)
    ensures failed.Some? ==>
      StuckAfter(keys, positions, m, values) && failed.value == SymbolsOf(keys, positions)[|values|]
  {
    hide LeastValues, NoValue, SignaturesAt, HashesAfter;
    var count, chars := |positions|, CharTable(keys, positions);
    asso, slots := seq(maxPositions, _ => seq(256, _ => 0)), [];
    var syms := RankSymbols(chars, count);
    var salt := MakeSalts(count);
    var sig := InitialSignatures(chars, count, salt);
    var phash := new nat[|keys|](k requires 0 <= k < |keys| => |keys[k]|);
    InitialState(keys, positions, salt, asso, phash[..], sig[..]);
    assert phash[..] == Lengths(keys);
    var ok, s;
    ok, s, asso, values := RunSymbols(keys, positions, chars, salt, asso, syms, m, phash, sig);
    if !ok {
      return Some(s), asso, [], values;
    }
    FinalState(keys, positions, salt, asso, Elements(syms), phash[..], sig[..], m);
    slots := SlotsOf(phash[..], m);
    failed := None;
  }

  /** The loop over the symbols. */
  method RunSymbols(keys: seq<Bytes>, positions: seq<nat>, chars: seq<seq<nat>>, salt: seq<Row>, zeros: seq<Row>,
                    syms: seq<Symbol>, m: nat, phash: array<nat>, sig: array<nat>)
    returns (ok: bool, failed: Symbol, asso: seq<Row>, ghost values: seq<nat>)
    requires chars == CharTable(keys, positions) && salt == Salts(|positions|) && syms == SymbolsOf(keys, positions)
    requires m > 0 && phash != sig && Solving(keys, chars, |positions|, salt, zeros, {}, phash[..], sig[..])
    requires phash[..] == Lengths(keys)
    modifies phash, sig
    ensures ok ==>
      Solving(keys, chars, |positions|, salt, asso, Elements(syms), phash[..], sig[..]) && |asso| == |zeros|
    ensures ok && syms != [] ==> OpenClassesApart(chars, |positions|, Elements(syms), SlotsOf(phash[..], m))
    ensures ok ==> Solved(keys, positions, m, values) && phash[..] == HashesAfter(keys, positions, values)
    ensures !ok ==> StuckAfter(keys, positions, m, values) && failed == syms[|values|]
  {
    hide Least, NoValue, LeastValues, HashesAfter, Solving, OpenClassesApart, Signatures, Hits, Shifted, Distinct;
    var count := |positions|;
    asso, failed, values := zeros, Symbol(0, 0), [];
    var order := new nat[|keys|](k => k);
    var slotGen := new nat[m](_ => 0);
    var gen := 0;
    var limit := if NextPowerOf2(m) < 32 then 32 else NextPowerOf2(m);
    NextPowerOf2IsLeast(m, 0);
    RunStarts(keys, positions, m, order[..]);
    var si := 0;
    while si < |syms|
      invariant si == |values| <= |syms| && |asso| == |zeros|
      invariant Solving(keys, chars, count, salt, asso, Elements(syms[..si]), phash[..], sig[..])
      invariant LeastValues(keys, positions, m, values) && phash[..] == HashesAfter(keys, positions, values)
      invariant Distinct(order[..]) && order.Length == |keys| && forall x: nat | x < order.Length :: order[x] < |keys|
      invariant forall t: nat | t < slotGen.Length :: slotGen[t] <= gen
      invariant si > 0 ==> OpenClassesApart(chars, count, Elements(syms[..si]), SlotsOf(phash[..], m))
    {
      NextSymbol(syms, si);
      var v;
      ok, v, asso, gen := DetermineSymbol(keys, chars, count, salt, asso, Elements(syms[..si]), syms[si], m, limit,
        phash, sig, order, slotGen, gen);
      if !ok {
        failed := syms[si];
        return;
      }
      RunGoesOn(keys, positions, m, values, v);
      values := values + [v];
      si := si + 1;
    }
    assert syms[..si] == syms;
    ok := true;
  }

  lemma NextSymbol(syms: seq<Symbol>, si: nat)
    requires Distinct(syms) && si < |syms|
    ensures syms[si] !in Elements(syms[..si]) && Elements(syms[..si + 1]) == Elements(syms[..si]) + {syms[si]}
  {
    NextDistinct(syms, si);
  }

  lemma RunStarts(keys: seq<Bytes>, positions: seq<nat>, m: nat, order: seq<nat>)
    requires m > 0 && |order| == |keys| && forall k: nat | k < |keys| :: order[k] == k
    ensures LeastValues(keys, positions, m, []) && HashesAfter(keys, positions, []) == Lengths(keys)
    ensures Distinct(order) && Elements(SymbolsOf(keys, positions)[..0]) == {}
  {
  }

  /** Why tier 1 gives up at a size: no positions, or a symbol that no value suits. */
  ghost predicate GperfFails(keys: seq<Bytes>, m: nat, maxPositions: nat) {
    && m > 0 && maxPositions > 0
    && match Selection(keys, m, maxPositions)
       case None => true
       case Some(positions) => ValuesFail(keys, positions, m)
  }

  /** try_generate_gperf. It gives up exactly for want of positions or of a value for some symbol, never in its final
      checks. */
  method TryGenerateGperf(keys: seq<Bytes>, m: nat, maxPositions: nat) returns (r: Result<GperfPlan, GperfFailure>)
    requires m > 0 && maxPositions >= 1
    ensures r.Ok? <==> !GperfFails(keys, m, maxPositions)
    ensures r.Ok? ==> GperfFits(r.value, keys, m, maxPositions)
    ensures r.Ok? ==> Some(r.value.positions) == Selection(keys, m, maxPositions) && exists values: seq<nat> ::
      LeadsTo(keys, values, m, r.value)
    ensures r.Err? ==> r.error == NoPositions || (r.error.NoValueFor? && exists values: seq<nat> ::
      StoppedBy(keys, Selection(keys, m, maxPositions), m, values, r.error.s))
    ensures Distinguishes(keys, [], m) <==> r.Ok? && r.value.positions == []
    ensures r == Err(NoPositions) <==> Selection(keys, m, maxPositions).None?
    ensures r == Err(NoPositions) ==>
      !Distinct(keys) || MaxLength(keys) >= maxPositions || maxPositions >= MAX_CANDIDATES
  {
    hide Solved, StuckAfter, HashesAfter, Distinguishes, Perfect, GperfHash, Candidates, Selection;
    var positions := new nat[maxPositions](_ => 0);
    var selected := SelectPositions(keys, positions, m, maxPositions);
    if selected.None? {
      return Err(NoPositions);
    }
    var chosen := positions[..selected.value];
    assert positions[..][..selected.value] == chosen;
    var asso: seq<Row> := seq(maxPositions, _ => seq(256, _ => 0));
    var slots := GperfSlots(keys, chosen, asso, m);
    ghost var values: seq<nat> := [];
    if chosen == [] {
      LengthSlotsDiffer(keys, asso, m);
      NoSymbolsNoValues(keys, m);
    } else {
      var failed;
      failed, asso, slots, values := DetermineAll(keys, chosen, m, maxPositions);
      if failed.Some? {
        assert StoppedBy(keys, Some(chosen), m, values, failed.value);
        return Err(NoValueFor(failed.value));
      }
    }
    SolvedIsNotStuck(keys, chosen, m, values);
    var ok, table := BuildTable(slots, m);
    if !ok {
      assert false;
      return Err(SlotAlreadyTaken);
    }
    if chosen != [] {
      var filled := CountFilled(table, |keys|);
      PerfectTable(slots, table[..]);
      if filled != |keys| {
        assert false;
        return Err(NotAllFilled);
      }
    }
    var plan := GperfPlan(chosen, asso, table[..]);
    assert LeadsTo(keys, values, m, plan);
    r := Ok(plan);
  }

  /** The plan's tables give the keys the slots that the least values lead to. */
  ghost predicate LeadsTo(keys: seq<Bytes>, values: seq<nat>, m: nat, plan: GperfPlan) {
    && m > 0 && Tables(plan.asso, |plan.positions|) && Solved(keys, plan.positions, m, values)
    && GperfSlots(keys, plan.positions, plan.asso, m) == SlotsOf(HashesAfter(keys, plan.positions, values), m)
  }

  /** The symbol at which the run over these positions is stuck. */
  ghost predicate StoppedBy(keys: seq<Bytes>, positions: Option<seq<nat>>, m: nat, values: seq<nat>, s: Symbol) {
    && m > 0 && positions.Some? && StuckAfter(keys, positions.value, m, values)
    && s == SymbolsOf(keys, positions.value)[|values|]
  }

  lemma NoSymbolsNoValues(keys: seq<Bytes>, m: nat)
    requires m > 0
    ensures Solved(keys, [], m, [])
    ensures forall asso: seq<Row> :: GperfSlots(keys, [], asso, m) == SlotsOf(HashesAfter(keys, [], []), m)
  {
    var syms := SymbolsOf(keys, []);
    if syms != [] {
      assert false;
    }
  }

  /** Without positions the lengths alone are the hash, and they differ modulo m. */
  lemma LengthSlotsDiffer(keys: seq<Bytes>, asso: seq<Row>, m: nat)
    requires m > 0 && Tables(asso, 0) && Distinguishes(keys, [], m)
    ensures Distinct(GperfSlots(keys, [], asso, m))
  {
    LengthsAloneDistinguish(keys, m);
    assert GperfSlots(keys, [], asso, m) == LengthSlots(keys, m);
  }
}
