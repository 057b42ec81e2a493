/** What the wide container's hash reads: every lane, and every lane's multiplier; and how a hash is cut up. */
module WideHashInputs {
  import opened Words
  import opened Numbers
  import opened Mixing
  import opened WideHash
  import opened WidePlacement
  import opened WideGenerator

  // ---------------------------------------------------------------- multipliers

  /** Different seed indices give different seeds. */
  lemma SeedFromIndexInjective(i: nat, j: nat)
    requires i < TWO_TO_THE_64 && j < TWO_TO_THE_64 && SeedFromIndex(i) == SeedFromIndex(j)
    ensures i == j
  {
    hide Xor, Times, ShiftRight, Avalanche;
    var x0, y0 := Times(i + 1, 0x9E3779B97F4A7C15), Times(j + 1, 0x9E3779B97F4A7C15);
    var x1, y1 := Avalanche(x0, 30, 0xBF58476D1CE4E5B9), Avalanche(y0, 30, 0xBF58476D1CE4E5B9);
    XorShiftInjective(Avalanche(x1, 27, 0x94D049BB133111EB), Avalanche(y1, 27, 0x94D049BB133111EB), 31);
    AvalancheInjective(x1, y1, 27, 0x94D049BB133111EB);
    AvalancheInjective(x0, y0, 30, 0xBF58476D1CE4E5B9);
    TimesInjective(i + 1, j + 1, 0x9E3779B97F4A7C15);
  }

  lemma OrOne(x: nat)
    ensures Or(x, 1) == 2 * (x / 2) + 1
  {
    OrZero(x / 2);
    OrCommutes(x / 2, 0);
  }

  lemma {:induction false} OrCommutes(a: nat, b: nat)
    ensures Or(a, b) == Or(b, a)
    decreases a + b
  {
    if a != 0 || b != 0 { OrCommutes(a / 2, b / 2); }
  }

  /** The index of a seed's multiplier for a lane. */
  function IndexOf(seed: nat, lane: nat): (i: nat)
    ensures i < TWO_TO_THE_64
  {
    (seed * 8 + lane) % TWO_TO_THE_64
  }

  /** Multipliers are odd words, and no three different indices share one. */
  lemma MultipliersVary(s: nat, l: nat, s': nat, l': nat, s'': nat, l'': nat)
    ensures Multiplier(s, l) % 2 == 1 && Multiplier(s, l) < TWO_TO_THE_64
    ensures
      IndexOf(s, l) != IndexOf(s', l') && IndexOf(s, l) != IndexOf(s'', l'') && IndexOf(s', l') != IndexOf(s'', l'') ==>
        Multiplier(s, l) != Multiplier(s', l') || Multiplier(s, l) != Multiplier(s'', l'')
  {
    var i, j, k := IndexOf(s, l), IndexOf(s', l'), IndexOf(s'', l'');
    hide SeedFromIndex, Or;
    OrOne(SeedFromIndex(i));
    OrOne(SeedFromIndex(j));
    OrOne(SeedFromIndex(k));
    if i != j && SeedFromIndex(i) == SeedFromIndex(j) { SeedFromIndexInjective(i, j); }
    if i != k && SeedFromIndex(i) == SeedFromIndex(k) { SeedFromIndexInjective(i, k); }
    if j != k && SeedFromIndex(j) == SeedFromIndex(k) { SeedFromIndexInjective(j, k); }
  }

  // ---------------------------------------------------------------- lanes

  /** Lanes and multipliers are words. */
  ghost predicate Inputs(lanes: seq<nat>, muls: seq<nat>) {
    && 1 <= |lanes| == |muls|
    && (forall l: nat | l < |lanes| :: lanes[l] < TWO_TO_THE_64 && muls[l] < TWO_TO_THE_64)
  }

  /** What one more lane does to the running hash. */
  function Mixed(h: nat, term: nat, strong: bool): nat {
    Xor(if strong then Avalanche(h, 29, 0xBF58476D1CE4E5B9) else h, term)
  }

  lemma NextLane(lanes: seq<nat>, muls: seq<nat>, strong: bool, n: nat)
    requires 1 <= n < |lanes| == |muls|
    ensures HashPrefix(lanes, muls, strong, 1) == Times(lanes[0], muls[0])
    ensures HashPrefix(lanes, muls, strong, n + 1) ==
      Mixed(HashPrefix(lanes, muls, strong, n), Times(lanes[n], muls[n]), strong)
  {
    hide Avalanche, Times, Xor;
  }

  lemma FirstLane(lanes: seq<nat>, muls: seq<nat>, strong: bool)
    requires 1 <= |lanes| == |muls|
    ensures HashPrefix(lanes, muls, strong, 1) == Times(lanes[0], muls[0])
  {
  }

  /** The step loses neither what came before nor the lane's term. */
  lemma MixedInjective(h: nat, x: nat, h': nat, x': nat, strong: bool)
    requires h < TWO_TO_THE_64 && h' < TWO_TO_THE_64 && (h == h' || x == x')
    requires Mixed(h, x, strong) == Mixed(h', x', strong)
    ensures h == h' && x == x'
  {
    hide Xor, Avalanche;
    var y := if strong then Avalanche(h, 29, 0xBF58476D1CE4E5B9) else h;
    var y' := if strong then Avalanche(h', 29, 0xBF58476D1CE4E5B9) else h';
    if x == x' {
      XorInjective(y, y', x);
      if strong { AvalancheInjective(h, h', 29, 0xBF58476D1CE4E5B9); }
    } else {
      XorCommutes(y, x);
      XorCommutes(y, x');
      XorInjective(x, x', y);
    }
  }

  /** Lanes are read in order, each with its own multiplier: the first n steps depend on the first n of both alone. */
  lemma {:induction false} SamePrefix(lanes: seq<nat>, muls: seq<nat>, lanes': seq<nat>, muls': seq<nat>, strong: bool,
                                      n: nat)
    requires 1 <= n <= |lanes| == |muls| && n <= |lanes'| == |muls'|
    requires forall l: nat | l < n :: lanes[l] == lanes'[l] && muls[l] == muls'[l]
    ensures HashPrefix(lanes, muls, strong, n) == HashPrefix(lanes', muls', strong, n)
  {
    hide *;
    FirstLane(lanes, muls, strong);
    FirstLane(lanes', muls', strong);
    if n > 1 {
      SamePrefix(lanes, muls, lanes', muls', strong, n - 1);
      NextLane(lanes, muls, strong, n - 1);
      NextLane(lanes', muls', strong, n - 1);
    }
  }

  /** A difference in exactly one term is never lost. */
  lemma {:induction false} PrefixesDiffer(lanes: seq<nat>, muls: seq<nat>, lanes': seq<nat>, muls': seq<nat>,
                                          strong: bool, k: nat, n: nat)
    requires 1 <= |lanes| == |muls| == |lanes'| == |muls'| && k < n <= |lanes|
    requires Times(lanes[k], muls[k]) != Times(lanes'[k], muls'[k])
    requires forall l: nat | l < n && l != k :: lanes[l] == lanes'[l] && muls[l] == muls'[l]
    ensures HashPrefix(lanes, muls, strong, n) != HashPrefix(lanes', muls', strong, n)
  {
    hide *;
    FirstLane(lanes, muls, strong);
    FirstLane(lanes', muls', strong);
    if n > 1 {
      var x, y := HashPrefix(lanes, muls, strong, n - 1), HashPrefix(lanes', muls', strong, n - 1);
      if k < n - 1 {
        PrefixesDiffer(lanes, muls, lanes', muls', strong, k, n - 1);
      } else {
        SamePrefix(lanes, muls, lanes', muls', strong, n - 1);
      }
      NextLane(lanes, muls, strong, n - 1);
      NextLane(lanes', muls', strong, n - 1);
      if HashPrefix(lanes, muls, strong, n) == HashPrefix(lanes', muls', strong, n) {
        MixedInjective(x, Times(lanes[n - 1], muls[n - 1]), y, Times(lanes'[n - 1], muls'[n - 1]), strong);
      }
    }
  }

  lemma FinishInjective(x: nat, y: nat, strong: bool)
    requires x < TWO_TO_THE_64 && y < TWO_TO_THE_64 && Finish(x, strong) == Finish(y, strong)
    ensures x == y
  {
    hide Xor, Avalanche, ShiftRight;
    if strong {
      XorShiftInjective(Avalanche(x, 29, 0xBF58476D1CE4E5B9), Avalanche(y, 29, 0xBF58476D1CE4E5B9), 32);
      AvalancheInjective(x, y, 29, 0xBF58476D1CE4E5B9);
    }
  }

  /** Every lane matters: lane vectors that differ in exactly one have different hashes, fast or strong, whatever the
      odd multipliers. */
  lemma HashReadsLane(lanes: seq<nat>, lanes': seq<nat>, muls: seq<nat>, strong: bool, k: nat)
    requires Inputs(lanes, muls) && Inputs(lanes', muls) && k < |lanes| && muls[k] % 2 == 1 && lanes[k] != lanes'[k]
    requires forall l: nat | l < |lanes| && l != k :: lanes[l] == lanes'[l]
    ensures Hash(lanes, muls, strong) != Hash(lanes', muls, strong)
  {
    hide Times, HashPrefix, Finish;
    if Times(lanes[k], muls[k]) == Times(lanes'[k], muls[k]) {
      TimesInjective(lanes[k], lanes'[k], muls[k]);
    }
    PrefixesDiffer(lanes, muls, lanes', muls, strong, k, |lanes|);
    if Hash(lanes, muls, strong) == Hash(lanes', muls, strong) {
      FinishInjective(HashPrefix(lanes, muls, strong, |lanes|), HashPrefix(lanes', muls, strong, |lanes|), strong);
    }
  }

  /** And so does every multiplier, each for its own lane. */
  lemma HashReadsMultiplier(lanes: seq<nat>, muls: seq<nat>, muls': seq<nat>, strong: bool, k: nat)
    requires Inputs(lanes, muls) && Inputs(lanes, muls') && k < |lanes| && lanes[k] % 2 == 1 && muls[k] != muls'[k]
    requires forall l: nat | l < |lanes| && l != k :: muls[l] == muls'[l]
    ensures Hash(lanes, muls, strong) != Hash(lanes, muls', strong)
  {
    if Times(lanes[k], muls[k]) == Times(lanes[k], muls'[k]) {
      assert lanes[k] * muls[k] == muls[k] * lanes[k] && lanes[k] * muls'[k] == muls'[k] * lanes[k];
      TimesInjective(muls[k], muls'[k], lanes[k]);
    }
    hide Times, HashPrefix, Finish;
    PrefixesDiffer(lanes, muls, lanes, muls', strong, k, |lanes|);
    if Hash(lanes, muls, strong) == Hash(lanes, muls', strong) {
      FinishInjective(HashPrefix(lanes, muls, strong, |lanes|), HashPrefix(lanes, muls', strong, |lanes|), strong);
    }
  }

  /** So keys whose lanes differ in exactly one are told apart by the hash under every seed. */
  lemma EverySeedReadsEveryLane(lanes: seq<nat>, lanes': seq<nat>, seed: nat, strong: bool, k: nat)
    requires k < |lanes| == |lanes'| && lanes[k] != lanes'[k]
    requires forall l: nat | l < |lanes| :: lanes[l] < TWO_TO_THE_64 && lanes'[l] < TWO_TO_THE_64
    requires forall l: nat | l < |lanes| && l != k :: lanes[l] == lanes'[l]
    ensures LaneHash(lanes, seed, strong) != LaneHash(lanes', seed, strong)
  {
    MultipliersAreOdd(|lanes|, seed);
    hide Hash, Multipliers;
    HashReadsLane(lanes, lanes', Multipliers(|lanes|, seed), strong, k);
  }

  lemma MultipliersAreOdd(count: nat, seed: nat)
    ensures forall l: nat | l < count :: Multipliers(count, seed)[l] < TWO_TO_THE_64
    ensures forall l: nat | l < count :: Multipliers(count, seed)[l] % 2 == 1
  {
    hide Multiplier;
    forall l: nat | l < count ensures Multiplier(seed, l) < TWO_TO_THE_64 && Multiplier(seed, l) % 2 == 1 {
      MultipliersVary(seed, l, seed, l, seed, l);
    }
  }

  // ---------------------------------------------------------------- the highest bit

  const HIGHEST: nat := 0x8000_0000_0000_0000

  lemma HighestIs()
    ensures HIGHEST == Pow2(63) && 2 * HIGHEST == TWO_TO_THE_64
  {
    Pow2Of64();
    assert Pow2(64) == 2 * Pow2(63);
  }

  /** A word with its highest bit changed. */
  function Flipped(x: nat): nat {
    Xor(x, HIGHEST)
  }

  lemma {:induction false} XorPower(x: nat, n: nat)
    requires x < 2 * Pow2(n)
    ensures Xor(x, Pow2(n)) == if x < Pow2(n) then x + Pow2(n) else x - Pow2(n)
  {
    if n == 0 {
      XorSmall(x);
    } else {
      var p := Pow2(n - 1);
      assert Pow2(n) == 2 * p;
      hide Pow2, Xor;
      XorPower(x / 2, n - 1);
      XorTwice(x, p);
    }
  }

  lemma XorTwice(x: nat, p: nat)
    ensures Xor(x, 2 * p) == x % 2 + 2 * Xor(x / 2, p)
  {
    hide Xor;
    HalfOfTwice(p);
    XorHalves(x, 2 * p, Xor(x / 2, p));
    SameParity(x, p);
  }

  lemma SameParity(x: nat, p: nat)
    ensures (x + 2 * p) % 2 == x % 2
  {
  }

  lemma XorSmall(x: nat)
    requires x < 2
    ensures Xor(x, 1) == 1 - x
  {
    XorHalves(x, 1, Xor(0, 0));
    assert Xor(0, 0) == 0;
  }

  /** Changing the highest bit is adding it, modulo 2^64. */
  lemma FlippedIs(x: nat)
    requires x < TWO_TO_THE_64
    ensures Flipped(x) == (x + HIGHEST) % TWO_TO_THE_64 < TWO_TO_THE_64
  {
    HighestIs();
    XorPower(x, 63);
    hide Xor, Pow2;
    if x < HIGHEST {
      ModUnique(x + HIGHEST, 0, x + HIGHEST, TWO_TO_THE_64);
    } else {
      ModUnique(x + HIGHEST, 1, x - HIGHEST, TWO_TO_THE_64);
    }
  }

  /** An odd multiple of a word with its highest bit changed has its highest bit changed, and no other. */
  lemma TimesOfFlipped(x: nat, k: nat)
    requires x < TWO_TO_THE_64 && k % 2 == 1
    ensures Times(Flipped(x), k) == Flipped(Times(x, k))
  {
    FlippedIs(x);
    FlippedIs(Times(x, k));
    hide Flipped;
    var j := k / 2;
    SumTimes(x, k, j);
    ReducedFactor(x + HIGHEST, k);
    ModAbsorb(x * k, HIGHEST, TWO_TO_THE_64);
    ModShift(x * k + HIGHEST, j, TWO_TO_THE_64);
  }

  lemma SumTimes(x: nat, k: nat, j: nat)
    requires k == 2 * j + 1
    ensures (x + HIGHEST) * k == x * k + HIGHEST + j * TWO_TO_THE_64
  {
    HighestIs();
    assert (x + HIGHEST) * k == x * k + HIGHEST * k;
    assert HIGHEST * k == j * (2 * HIGHEST) + HIGHEST;
  }

  lemma ReducedFactor(x: nat, k: nat)
    ensures Times(x % TWO_TO_THE_64, k) == (x * k) % TWO_TO_THE_64
  {
    var q := x / TWO_TO_THE_64;
    assert x * k == (x % TWO_TO_THE_64) * k + (q * k) * TWO_TO_THE_64 by {
      assert x == q * TWO_TO_THE_64 + x % TWO_TO_THE_64;
    }
    ModShift((x % TWO_TO_THE_64) * k, q * k, TWO_TO_THE_64);
  }

  lemma FlipThrough(x: nat, y: nat)
    ensures Xor(Flipped(x), y) == Flipped(Xor(x, y)) == Xor(x, Flipped(y))
  {
    hide Xor;
    XorAssociates(x, HIGHEST, y);
    XorCommutes(HIGHEST, y);
    XorAssociates(x, y, HIGHEST);
  }

  lemma FlipTwice(x: nat)
    ensures Flipped(Flipped(x)) == x
  {
    hide Xor;
    XorAssociates(x, HIGHEST, HIGHEST);
    XorCancels(HIGHEST);
    XorZero(x);
  }

  /** The same lanes, but for the highest bits of lanes i and j. */
  ghost predicate HighBitsDiffer(lanes: seq<nat>, lanes': seq<nat>, i: nat, j: nat) {
    && i < j < |lanes| == |lanes'|
    && forall l: nat | l < |lanes| :: lanes'[l] == (if l == i || l == j then Flipped(lanes[l]) else lanes[l])
  }

  /** The terms of these two lanes, and of no other, have their highest bits changed. */
  lemma TermsFlipped(lanes: seq<nat>, lanes': seq<nat>, muls: seq<nat>, i: nat, j: nat)
    requires Inputs(lanes, muls) && HighBitsDiffer(lanes, lanes', i, j) && muls[i] % 2 == 1 && muls[j] % 2 == 1
    ensures forall l: nat | l < |lanes| ::
      Times(lanes'[l], muls[l]) ==
        (if l == i || l == j then Flipped(Times(lanes[l], muls[l])) else Times(lanes[l], muls[l]))
  {
    hide Flipped, Times;
    TimesOfFlipped(lanes[i], muls[i]);
    TimesOfFlipped(lanes[j], muls[j]);
  }

  /** In the fast hash two such changes cancel: it never tells these lanes apart, under any seed. */
  lemma {:induction false} FastPrefix(lanes: seq<nat>, lanes': seq<nat>, muls: seq<nat>, i: nat, j: nat, n: nat)
    requires Inputs(lanes, muls) && HighBitsDiffer(lanes, lanes', i, j) && muls[i] % 2 == 1 && muls[j] % 2 == 1
    requires 1 <= n <= |lanes|
    ensures HashPrefix(lanes', muls, false, n) ==
      if i < n <= j then Flipped(HashPrefix(lanes, muls, false, n)) else HashPrefix(lanes, muls, false, n)
  {
    TermsFlipped(lanes, lanes', muls, i, j);
    hide *;
    FirstLane(lanes, muls, false);
    FirstLane(lanes', muls, false);
    if n > 1 {
      FastPrefix(lanes, lanes', muls, i, j, n - 1);
      NextLane(lanes, muls, false, n - 1);
      NextLane(lanes', muls, false, n - 1);
      FastStep(HashPrefix(lanes, muls, false, n - 1), Times(lanes[n - 1], muls[n - 1]));
    }
  }

  lemma FastStep(h: nat, x: nat)
    ensures Mixed(Flipped(h), x, false) == Flipped(Mixed(h, x, false)) == Mixed(h, Flipped(x), false)
    ensures Mixed(Flipped(h), Flipped(x), false) == Mixed(h, x, false)
  {
    hide Xor, Flipped;
    FlipThrough(h, x);
    FlipThrough(h, Flipped(x));
    FlipTwice(Xor(h, x));
  }

  lemma FastMissesHighBits(lanes: seq<nat>, lanes': seq<nat>, muls: seq<nat>, i: nat, j: nat)
    requires Inputs(lanes, muls) && HighBitsDiffer(lanes, lanes', i, j) && muls[i] % 2 == 1 && muls[j] % 2 == 1
    ensures Hash(lanes', muls, false) == Hash(lanes, muls, false)
  {
    FastPrefix(lanes, lanes', muls, i, j, |lanes|);
    hide HashPrefix;
  }

  /** Mixing between lanes spreads the change of a highest bit. */
  lemma AvalancheSpreads(h: nat)
    requires h < TWO_TO_THE_64
    ensures Avalanche(Flipped(h), 29, 0xBF58476D1CE4E5B9) != Flipped(Avalanche(h, 29, 0xBF58476D1CE4E5B9))
  {
    var g := Flipped(h);
    var x, y := Xor(h, ShiftRight(h, 29)), Xor(g, ShiftRight(g, 29));
    FlippedIs(h);
    hide Xor, ShiftRight, Flipped, Times;
    Xor64(h, ShiftRight(h, 29));
    Xor64(g, ShiftRight(g, 29));
    FlippedIs(x);
    TimesOfFlipped(x, 0xBF58476D1CE4E5B9);
    if Times(y, 0xBF58476D1CE4E5B9) == Times(Flipped(x), 0xBF58476D1CE4E5B9) {
      TimesInjective(y, Flipped(x), 0xBF58476D1CE4E5B9);
      ShiftedFlip(h);
    }
  }

  lemma ShiftedFlip(h: nat)
    ensures Xor(Flipped(h), ShiftRight(Flipped(h), 29)) != Flipped(Xor(h, ShiftRight(h, 29)))
  {
    hide Xor, ShiftRight;
    var t := ShiftRight(HIGHEST, 29);
    ShiftOfXor(h, HIGHEST, 29);
    XorSwapMiddle(h, HIGHEST, ShiftRight(h, 29), t);
    var x := Xor(h, ShiftRight(h, 29));
    if Xor(x, Xor(HIGHEST, t)) == Xor(x, HIGHEST) {
      XorCommutes(x, Xor(HIGHEST, t));
      XorCommutes(x, HIGHEST);
      XorInjective(Xor(HIGHEST, t), HIGHEST, x);
      XorZero(HIGHEST);
      XorCommutes(HIGHEST, t);
      XorCommutes(HIGHEST, 0);
      XorInjective(t, 0, HIGHEST);
      ShiftedHighest();
    }
  }

  lemma ShiftedHighest()
    ensures ShiftRight(HIGHEST, 29) > 0
  {
    HighestIs();
    Pow2Add(29, 34);
    hide Pow2;
    ModUnique(Pow2(63), Pow2(34), 0, Pow2(29));
  }

  /** In the strong hash two such changes in neighbouring lanes never cancel. */
  lemma StrongSeesHighBits(lanes: seq<nat>, lanes': seq<nat>, muls: seq<nat>, i: nat)
    requires Inputs(lanes, muls) && HighBitsDiffer(lanes, lanes', i, i + 1)
    requires muls[i] % 2 == 1 && muls[i + 1] % 2 == 1
    ensures Hash(lanes', muls, true) != Hash(lanes, muls, true)
  {
    hide *;
    TermsFlipped(lanes, lanes', muls, i, i + 1);
    RestIsSame(lanes, lanes', muls, i);
    var h := HashPrefix(lanes, muls, true, i + 1);
    FlippedUpTo(lanes, lanes', muls, i);
    NextLane(lanes, muls, true, i + 1);
    NextLane(lanes', muls, true, i + 1);
    StrongStep(h, Times(lanes[i + 1], muls[i + 1]));
    StaysApart(lanes, lanes', muls, i + 2, |lanes|);
    if Hash(lanes', muls, true) == Hash(lanes, muls, true) {
      HashIsFinished(lanes, muls);
      HashIsFinished(lanes', muls);
      FinishInjective(HashPrefix(lanes, muls, true, |lanes|), HashPrefix(lanes', muls, true, |lanes|), true);
    }
  }

  lemma RestIsSame(lanes: seq<nat>, lanes': seq<nat>, muls: seq<nat>, i: nat)
    requires Inputs(lanes, muls) && HighBitsDiffer(lanes, lanes', i, i + 1)
    ensures i + 1 < |lanes| == |lanes'| == |muls| && HashPrefix(lanes, muls, true, i + 1) < TWO_TO_THE_64
    ensures forall l: nat | i + 2 <= l < |lanes| :: lanes'[l] == lanes[l]
  {
    hide HashPrefix, Flipped;
  }

  lemma HashIsFinished(lanes: seq<nat>, muls: seq<nat>)
    requires 1 <= |lanes| == |muls|
    ensures Hash(lanes, muls, true) == Finish(HashPrefix(lanes, muls, true, |lanes|), true)
  {
    hide HashPrefix, Finish;
  }

  lemma FlippedUpTo(lanes: seq<nat>, lanes': seq<nat>, muls: seq<nat>, i: nat)
    requires Inputs(lanes, muls) && HighBitsDiffer(lanes, lanes', i, i + 1)
    requires Times(lanes'[i], muls[i]) == Flipped(Times(lanes[i], muls[i]))
    ensures HashPrefix(lanes', muls, true, i + 1) == Flipped(HashPrefix(lanes, muls, true, i + 1))
  {
    hide HashPrefix, Flipped, Times, Avalanche, Xor;
    FirstLane(lanes, muls, true);
    FirstLane(lanes', muls, true);
    if i > 0 {
      SamePrefix(lanes, muls, lanes', muls, true, i);
      NextLane(lanes, muls, true, i);
      NextLane(lanes', muls, true, i);
      var h := HashPrefix(lanes, muls, true, i);
      FlipThrough(Avalanche(h, 29, 0xBF58476D1CE4E5B9), Times(lanes[i], muls[i]));
    }
  }

  lemma StrongStep(h: nat, x: nat)
    requires h < TWO_TO_THE_64
    ensures Mixed(Flipped(h), Flipped(x), true) != Mixed(h, x, true)
  {
    hide Xor, Flipped, Avalanche;
    AvalancheSpreads(h);
    var a, b := Avalanche(Flipped(h), 29, 0xBF58476D1CE4E5B9), Avalanche(h, 29, 0xBF58476D1CE4E5B9);
    FlipThrough(b, x);
    FlipThrough(b, Flipped(x));
    FlipTwice(x);
    if Xor(a, Flipped(x)) == Xor(b, x) {
      assert Xor(b, x) == Xor(Flipped(b), Flipped(x));
      XorInjective(a, Flipped(b), Flipped(x));
    }
  }

  lemma {:induction false} StaysApart(lanes: seq<nat>, lanes': seq<nat>, muls: seq<nat>, k: nat, n: nat)
    requires 1 <= k <= n <= |lanes| == |lanes'| == |muls|
    requires HashPrefix(lanes, muls, true, k) != HashPrefix(lanes', muls, true, k)
    requires forall l: nat | k <= l < n :: lanes'[l] == lanes[l]
    ensures HashPrefix(lanes, muls, true, n) != HashPrefix(lanes', muls, true, n)
  {
    hide *;
    if k < n {
      StaysApart(lanes, lanes', muls, k, n - 1);
      NextLane(lanes, muls, true, n - 1);
      NextLane(lanes', muls, true, n - 1);
      if HashPrefix(lanes, muls, true, n) == HashPrefix(lanes', muls, true, n) {
        MixedInjective(HashPrefix(lanes, muls, true, n - 1), Times(lanes[n - 1], muls[n - 1]),
                       HashPrefix(lanes', muls, true, n - 1), Times(lanes'[n - 1], muls[n - 1]), true);
      }
    }
  }

  /** So under every seed: the fast hash never tells such lanes apart, and where they are neighbours the strong one
      always does. */
  lemma HighBitsUnderEverySeed(lanes: seq<nat>, lanes': seq<nat>, seed: nat, i: nat, j: nat)
    requires HighBitsDiffer(lanes, lanes', i, j) && forall l: nat | l < |lanes| :: lanes[l] < TWO_TO_THE_64
    ensures LaneHash(lanes', seed, false) == LaneHash(lanes, seed, false)
    ensures j == i + 1 ==> LaneHash(lanes', seed, true) != LaneHash(lanes, seed, true)
  {
    MultipliersAreOdd(|lanes|, seed);
    hide Hash, Multipliers, Flipped;
    FastMissesHighBits(lanes, lanes', Multipliers(|lanes|, seed), i, j);
    if j == i + 1 { StrongSeesHighBits(lanes, lanes', Multipliers(|lanes|, seed), i); }
  }

  /** And a set with two such keys gets a plan of the strong hash, if any. */
  lemma OnlyStrongPlans(keyLanes: seq<seq<nat>>, plan: Plan, x: nat, y: nat, i: nat, j: nat)
    requires FirstThatWorks(keyLanes, plan) && x < y < |keyLanes|
    requires HighBitsDiffer(keyLanes[x], keyLanes[y], i, j)
    requires forall l: nat | l < |keyLanes[x]| :: keyLanes[x][l] < TWO_TO_THE_64
    ensures plan.strong
  {
    HighBitsUnderEverySeed(keyLanes[x], keyLanes[y], plan.seed, i, j);
    hide LaneHash, SeedsFail, SeedFails, LeastPilots, HighBitsDiffer;
    SameHashFails(Hashes(keyLanes, plan.seed, false), GeometryOf(|keyLanes|, plan.tableSize), x, y);
  }

  lemma SameHashFails(hashes: seq<nat>, g: Geometry, x: nat, y: nat)
    requires g.Valid() && Words64(hashes) && x < y < |hashes| && hashes[x] == hashes[y]
    ensures SeedFails(hashes, g)
  {
    hide SearchFails;
    var bucket, base := Buckets(hashes, g), Bases(hashes, g);
    assert bucket[x] == bucket[y] && base[x] == base[y];
  }

  // ---------------------------------------------------------------- the parts of a hash

  /** From the top of a hash: the bucket, the base, and bits nobody looks at. */
  lemma HashParts(g: Geometry, bucket: nat, base: nat, low: nat)
    requires g.Valid() && bucket < g.buckets && base < g.m && low < Pow2(64 - g.bBits - g.mBits)
    ensures var h := Joined(low, 64 - g.bBits - g.mBits, Joined(base, g.mBits, bucket));
      h < TWO_TO_THE_64 && BucketOf(h, g) == bucket && BaseOf(h, g) == base
  {
    var rest := 64 - g.bBits - g.mBits;
    var high := Joined(base, g.mBits, bucket);
    var h := Joined(low, rest, high);
    Pow2Of64();
    Pow2Add(rest, g.mBits);
    Pow2Add(rest + g.mBits, g.bBits);
    JoinedBound(low, rest, base, g.mBits, bucket, g.bBits);
    JoinedParts(low, rest, high);
    JoinedParts(base, g.mBits, bucket);
    ShiftTwice(h, rest, g.mBits);
    hide Joined, Pow2, ShiftRight;
    if g.bBits == 0 { Pow2Of0(); }
    if g.mBits == 0 { Pow2Of0(); }
  }

  lemma ShiftTwice(h: nat, a: nat, b: nat)
    ensures ShiftRight(h, a + b) == ShiftRight(ShiftRight(h, a), b)
  {
    Pow2Add(a, b);
    hide Pow2;
    DivideTwice(h, Pow2(a), Pow2(b));
  }

  lemma JoinedBound(low: nat, a: nat, mid: nat, b: nat, high: nat, c: nat)
    requires low < Pow2(a) && mid < Pow2(b) && high < Pow2(c)
    ensures Joined(low, a, Joined(mid, b, high)) < Pow2(a + b + c)
  {
    Pow2Add(b, c);
    Pow2Add(a, b + c);
    hide Pow2;
    JoinBound(mid, Pow2(b), high, Pow2(c));
    JoinBound(low, Pow2(a), Joined(mid, b, high), Pow2(b + c));
  }

  lemma JoinBound(low: nat, p: nat, high: nat, q: nat)
    requires low < p && high < q
    ensures low + p * high < p * q
  {
    AtMostTimes(p, high + 1, q);
    assert p * (high + 1) == p * high + p;
  }

  /** At most two keys to a bucket on average, and never more buckets than keys. */
  lemma BucketCountBounds(n: nat)
    requires n >= 1
    ensures BucketCount(n) <= n <= 2 * BucketCount(n)
  {
    NextPowerOf2IsLeast(n, 0);
    HalfOfPower(Log2(n));
    hide Pow2, Log2;
  }

  lemma HalfOfPower(l: nat)
    ensures if l == 0 then Pow2(l) == 1 else Pow2(l) == 2 * (Pow2(l) / 2)
  {
    if l > 0 {
      assert Pow2(l) == 2 * Pow2(l - 1);
      hide Pow2;
      HalfOfTwice(Pow2(l - 1));
    }
  }

  lemma HalfOfTwice(x: nat)
    ensures (2 * x) / 2 == x
  {
  }
}
