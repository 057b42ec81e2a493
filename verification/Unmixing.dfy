/** The hashes run backwards. Every mixing step can be undone, so a hash gives back what went into it: a seed index, the
    seed of a whole-key hash, and the first term of a lane hash. */
module Unmixing {
  import opened Words
  import opened Numbers
  import opened Mixing
  import opened Displacement
  import opened WideHash
  import opened HashInputs
  import opened WideHashInputs

  // ---------------------------------------------------------------- one step

  /** Undoes xor with a right shift of itself. */
  function Unshift(y: nat, shift: nat): nat {
    Xor(Xor(y, ShiftRight(y, shift)), ShiftRight(y, 2 * shift))
  }

  /** Shifts of a word by 22 bits and more: after three of them nothing is left. */
  lemma UnshiftUndoes(x: nat, shift: nat)
    requires x < TWO_TO_THE_64 && shift >= 22
    ensures Unshift(Xor(x, ShiftRight(x, shift)), shift) == x
  {
    hide Xor, ShiftRight;
    var a, b, c := ShiftRight(x, shift), ShiftRight(x, 2 * shift), ShiftRight(x, 3 * shift);
    ShiftOfXor(x, a, shift);
    ShiftOfXor(x, a, 2 * shift);
    ShiftTwice(x, shift, shift);
    ShiftTwice(x, shift, 2 * shift);
    NothingLeft(x, 3 * shift);
    Telescope(x, a, b);
  }

  lemma NothingLeft(x: nat, n: nat)
    requires x < TWO_TO_THE_64 && n >= 64
    ensures ShiftRight(x, n) == 0
  {
    Pow2Of64();
    Pow2Grows(64, n);
    hide Pow2;
    ModUnique(x, 0, x, Pow2(n));
  }

  /** What is xor-ed twice is gone. */
  lemma Telescope(x: nat, a: nat, b: nat)
    ensures Xor(Xor(Xor(x, a), Xor(a, b)), Xor(b, 0)) == x
  {
    hide Xor;
    XorZero(b);
    DropMiddle(x, a, b);
    DropMiddle(x, b, 0);
    XorZero(b);
    XorZero(x);
  }

  lemma DropMiddle(x: nat, a: nat, b: nat)
    ensures Xor(Xor(x, a), Xor(a, b)) == Xor(x, b)
  {
    hide Xor;
    XorAssociates(x, a, Xor(a, b));
    XorAssociates(a, a, b);
    XorCancels(a);
    XorCommutes(0, b);
    XorZero(b);
  }

  /** Undoes an avalanche step, given the factor's inverse. */
  function Unavalanche(r: nat, shift: nat, inverse: nat): nat {
    Unshift(Times(r, inverse), shift)
  }

  /** Multiplying by a number and by its inverse modulo 2^64. */
  lemma UntimesUndoes(x: nat, factor: nat, inverse: nat, k: nat)
    requires x < TWO_TO_THE_64 && factor * inverse == k * TWO_TO_THE_64 + 1
    ensures Times(Times(x, factor), inverse) == x
  {
    var p, q := x * factor, (x * factor) / TWO_TO_THE_64;
    assert p == q * TWO_TO_THE_64 + Times(x, factor);
    Cleared(x, factor, inverse, k);
    UndoneProduct(Times(x, factor), q, inverse, p);
    assert Times(x, factor) * inverse == (x * k - q * inverse) * TWO_TO_THE_64 + x by {
      Collect(x * k, q * inverse, TWO_TO_THE_64);
    }
    ModUnique(Times(x, factor) * inverse, x * k - q * inverse, x, TWO_TO_THE_64);
  }

  lemma Cleared(x: nat, factor: nat, inverse: nat, k: nat)
    requires factor * inverse == k * TWO_TO_THE_64 + 1
    ensures (x * factor) * inverse == (x * k) * TWO_TO_THE_64 + x
  {
    assert (x * factor) * inverse == x * (factor * inverse) == x * (k * TWO_TO_THE_64 + 1);
  }

  lemma UndoneProduct(r: nat, q: nat, inverse: nat, p: nat)
    requires p == q * TWO_TO_THE_64 + r
    ensures r * inverse == p * inverse - (q * inverse) * TWO_TO_THE_64
  {
    assert p * inverse == (q * TWO_TO_THE_64) * inverse + r * inverse;
  }

  lemma Collect(a: int, b: int, m: nat)
    ensures a * m - b * m == (a - b) * m
  {
  }

  lemma UnavalancheUndoes(x: nat, shift: nat, factor: nat, inverse: nat, k: nat)
    requires x < TWO_TO_THE_64 && shift >= 22 && factor * inverse == k * TWO_TO_THE_64 + 1
    ensures Unavalanche(Avalanche(x, shift, factor), shift, inverse) == x
  {
    hide Xor, ShiftRight, Times, Unshift;
    Xor64(x, ShiftRight(x, shift));
    UntimesUndoes(Xor(x, ShiftRight(x, shift)), factor, inverse, k);
    UnshiftUndoes(x, shift);
  }

  // ---------------------------------------------------------------- seeds from indices

  /** The index a seed was made from. */
  function SeedIndex(z: nat): nat {
    var z0 := Unavalanche(Unavalanche(Unshift(z, 31), 27, 0x319642B2D24D8EC3), 30, 0x96DE1B173F119089);
    (Times(z0, 0xF1DE83E19937733D) + (TWO_TO_THE_64 - 1)) % TWO_TO_THE_64
  }

  lemma SeedIndexUndoes(i: nat)
    requires i < TWO_TO_THE_64
    ensures SeedIndex(SeedFromIndex(i)) == i
  {
    hide Xor, ShiftRight, Times, Unshift, Avalanche, Unavalanche;
    var z0 := Times(i + 1, 0x9E3779B97F4A7C15);
    var z1 := Avalanche(z0, 30, 0xBF58476D1CE4E5B9);
    var z2 := Avalanche(z1, 27, 0x94D049BB133111EB);
    UnshiftUndoes(z2, 31);
    UnavalancheUndoes(z1, 27, 0x94D049BB133111EB, 0x319642B2D24D8EC3, 2077064247507883091);
    UnavalancheUndoes(z0, 30, 0xBF58476D1CE4E5B9, 0x96DE1B173F119089, 8125545580553827436);
    SuccessorUndone(i);
  }

  lemma SuccessorUndone(i: nat)
    requires i < TWO_TO_THE_64
    ensures (Times(Times(i + 1, 0x9E3779B97F4A7C15), 0xF1DE83E19937733D) + (TWO_TO_THE_64 - 1)) % TWO_TO_THE_64 == i
  {
    if i + 1 < TWO_TO_THE_64 {
      UntimesUndoes(i + 1, 0x9E3779B97F4A7C15, 0xF1DE83E19937733D, 10771413168148108919);
      ModUnique(i + TWO_TO_THE_64, 1, i, TWO_TO_THE_64);
    } else {
      ModUnique(TWO_TO_THE_64 * 0x9E3779B97F4A7C15, 0x9E3779B97F4A7C15, 0, TWO_TO_THE_64);
      assert Times(i + 1, 0x9E3779B97F4A7C15) == 0;
    }
  }

  // ---------------------------------------------------------------- the whole-key hash

  /** The running hash before the final mixing. */
  function Unmixed(h: nat): nat {
    Unavalanche(Unavalanche(Unshift(h, 33), 33, 0x9CB4B2F8129337DB), 33, 0x4F74430C22A54005)
  }

  /** The running hash before a chunk. */
  function Unfolded(h: nat, c: nat): nat {
    Xor(Times(Unshift(h, 32), 0xF1DE83E19937733D), c)
  }

  /** The running hash before the first n chunks. */
  function BeforeChunks(key: Bytes, h: nat, n: nat): nat
    decreases n
  {
    if n == 0 then h else BeforeChunks(key, Unfolded(h, Chunk(key, n - 1)), n - 1)
  }

  /** The seed under which the key has this hash. */
  function SeedOf(key: Bytes, h: nat): nat {
    Xor(BeforeChunks(key, Unmixed(h), (|key| + 7) / 8), Times(|key| + 1, GOLDEN))
  }

  lemma UnmixedUndoes(key: Bytes, seed: nat)
    requires seed < TWO_TO_THE_64
    ensures Unmixed(FullHash(key, seed)) == FoldChunks(key, seed, (|key| + 7) / 8)
  {
    hide Xor, ShiftRight, Times, Unshift, Avalanche, Unavalanche, FoldChunks;
    var x := FoldChunks(key, seed, (|key| + 7) / 8);
    var y := Avalanche(x, 33, 0xFF51AFD7ED558CCD);
    var z := Avalanche(y, 33, 0xC4CEB9FE1A85EC53);
    UnshiftUndoes(z, 33);
    UnavalancheUndoes(y, 33, 0xC4CEB9FE1A85EC53, 0x9CB4B2F8129337DB, 8680939279959119233);
    UnavalancheUndoes(x, 33, 0xFF51AFD7ED558CCD, 0x4F74430C22A54005, 5710046619856821070);
  }

  lemma UnfoldedUndoes(h: nat, c: nat)
    requires h < TWO_TO_THE_64 && c < TWO_TO_THE_64
    ensures Unfolded(Folded(h, c), c) == h
  {
    hide Xor, ShiftRight, Times, Unshift;
    Xor64(h, c);
    UnshiftUndoes(Times(Xor(h, c), GOLDEN), 32);
    UntimesUndoes(Xor(h, c), GOLDEN, 0xF1DE83E19937733D, 10771413168148108919);
    XorAssociates(h, c, c);
    XorCancels(c);
    XorZero(h);
  }

  lemma {:induction false} BeforeChunksUndoes(key: Bytes, seed: nat, n: nat)
    requires seed < TWO_TO_THE_64
    ensures BeforeChunks(key, FoldChunks(key, seed, n), n) == FoldChunks(key, seed, 0)
  {
    hide *;
    BeforeChunksStep(key, FoldChunks(key, seed, n), n);
    if n > 0 {
      NextFold(key, seed, n - 1);
      UnfoldedUndoes(FoldChunks(key, seed, n - 1), Chunk(key, n - 1));
      BeforeChunksUndoes(key, seed, n - 1);
    }
  }

  lemma BeforeChunksStep(key: Bytes, h: nat, n: nat)
    ensures BeforeChunks(key, h, n) ==
      if n == 0 then h else BeforeChunks(key, Unfolded(h, Chunk(key, n - 1)), n - 1)
  {
    hide Unfolded, Chunk;
  }

  /** Key and hash give back the seed: the hash loses nothing of it, and neither does any step on the way. */
  lemma SeedOfUndoes(key: Bytes, seed: nat)
    requires seed < TWO_TO_THE_64
    ensures SeedOf(key, FullHash(key, seed)) == seed
  {
    hide FoldChunks, FullHash, Unmixed, BeforeChunks, Xor, Times;
    UnmixedUndoes(key, seed);
    BeforeChunksUndoes(key, seed, (|key| + 7) / 8);
    StartOfFold(key, seed);
    var x := Times(|key| + 1, GOLDEN);
    XorAssociates(seed, x, x);
    XorCancels(x);
    XorZero(seed);
  }

  // ---------------------------------------------------------------- the lane hash

  /** The running hash before a lane. */
  function BeforeLane(h: nat, term: nat, strong: bool): nat {
    if strong then Unavalanche(Xor(h, term), 29, 0x96DE1B173F119089) else Xor(h, term)
  }

  /** The running hash before the strong variant's last mixing. */
  function Unfinished(h: nat, strong: bool): nat {
    if strong then Unavalanche(Unshift(h, 32), 29, 0x96DE1B173F119089) else h
  }

  /** What the first lane contributed, given the other lanes. */
  function FirstTerm(lanes: seq<nat>, muls: seq<nat>, strong: bool, h: nat, n: nat): nat
    requires 1 <= n <= |lanes| == |muls|
    decreases n
  {
    if n == 1 then h
    else FirstTerm(lanes, muls, strong, BeforeLane(h, Times(lanes[n - 1], muls[n - 1]), strong), n - 1)
  }

  lemma BeforeLaneUndoes(h: nat, term: nat, strong: bool)
    requires h < TWO_TO_THE_64
    ensures BeforeLane(Mixed(h, term, strong), term, strong) == h
  {
    hide Xor, Avalanche, Unavalanche;
    var y := if strong then Avalanche(h, 29, 0xBF58476D1CE4E5B9) else h;
    XorAssociates(y, term, term);
    XorCancels(term);
    XorZero(y);
    UnavalancheUndoes(h, 29, 0xBF58476D1CE4E5B9, 0x96DE1B173F119089, 8125545580553827436);
  }

  lemma UnfinishedUndoes(h: nat, strong: bool)
    requires h < TWO_TO_THE_64
    ensures Unfinished(Finish(h, strong), strong) == h
  {
    hide Xor, ShiftRight, Avalanche, Unshift, Unavalanche;
    if strong {
      UnshiftUndoes(Avalanche(h, 29, 0xBF58476D1CE4E5B9), 32);
      UnavalancheUndoes(h, 29, 0xBF58476D1CE4E5B9, 0x96DE1B173F119089, 8125545580553827436);
    }
  }

  lemma {:induction false} FirstTermUndoes(lanes: seq<nat>, muls: seq<nat>, strong: bool, n: nat)
    requires 1 <= n <= |lanes| == |muls|
    ensures FirstTerm(lanes, muls, strong, HashPrefix(lanes, muls, strong, n), n) == Times(lanes[0], muls[0])
  {
    FirstLane(lanes, muls, strong);
    if n > 1 {
      NextLane(lanes, muls, strong, n - 1);
      BeforeLaneUndoes(HashPrefix(lanes, muls, strong, n - 1), Times(lanes[n - 1], muls[n - 1]), strong);
      hide HashPrefix, Mixed, BeforeLane, Times;
      FirstTermUndoes(lanes, muls, strong, n - 1);
    }
  }

  /** The hash and all other lanes give back what the first lane contributed, in either variant. */
  lemma HashUndone(lanes: seq<nat>, muls: seq<nat>, strong: bool)
    requires 1 <= |lanes| == |muls|
    ensures FirstTerm(lanes, muls, strong, Unfinished(Hash(lanes, muls, strong), strong), |lanes|)
      == Times(lanes[0], muls[0])
  {
    hide HashPrefix, Finish, Unfinished, FirstTerm;
    UnfinishedUndoes(HashPrefix(lanes, muls, strong, |lanes|), strong);
    FirstTermUndoes(lanes, muls, strong, |lanes|);
  }
}
