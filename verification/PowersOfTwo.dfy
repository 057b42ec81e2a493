/** The two ways the program rounds up to a power of two, on 64-bit words. */
module PowersOfTwo {
  import opened Words
  import opened Numbers

  /** is_power_of_two: one bit set. */
  predicate IsPower(n: bv64) {
    n > 0 && n & (n - 1) == 0
  }

  /** All bits up to the highest one of x. */
  ghost predicate FillsBelow(x: bv64, y: bv64) {
    && y & (y + 1) == 0 && x <= y
    && (if x == 0 then y == 0 else y >> 1 < x)
  }

  /** Copies the highest bit of x into all bits below it. */
  function Smear(x: bv64): (y: bv64)
    ensures FillsBelow(x, y)
  {
    var n1 := x | (x >> 1);
    var n2 := n1 | (n1 >> 2);
    var n3 := n2 | (n2 >> 4);
    var n4 := n3 | (n3 >> 8);
    var n5 := n4 | (n4 >> 16);
    n5 | (n5 >> 32)
  }

  /** next_power_of_two: bit-smear of n - 1, plus one. */
  function NextBySmear(n: bv64): (p: bv64) {
    if n == 0 then 1 else Smear(n - 1) + 1
  }

  /** p is the least power of two that is at least n. */
  ghost predicate LeastPower(n: bv64, p: bv64) {
    IsPower(p) && n <= p && (p == 1 || p >> 1 < n)
  }

  /** Powers of two at least double. */
  lemma NextPowerDoubles(p: bv64, q: bv64)
    requires IsPower(p) && IsPower(q) && p < q
    ensures p <= q >> 1
  {
  }

  lemma LeastPowerIsUnique(n: bv64, p: bv64, q: bv64)
    requires LeastPower(n, p) && LeastPower(n, q)
    ensures p == q
  {
    if p < q {
      NextPowerDoubles(p, q);
    } else if q < p {
      NextPowerDoubles(q, p);
    }
  }

  lemma OneMoreThanFilled(n: bv64, y: bv64)
    requires 0 < n && FillsBelow(n - 1, y)
    ensures n <= 0x8000_0000_0000_0000 ==> LeastPower(n, y + 1)
    ensures n > 0x8000_0000_0000_0000 ==> y + 1 == 0
  {
  }

  /** The smear form rounds up exactly for n up to 2^63; above, it wraps to zero. */
  lemma SmearRoundsUp(n: bv64)
    ensures LeastPower(n, NextBySmear(n)) <==> n <= 0x8000_0000_0000_0000
    ensures n > 0x8000_0000_0000_0000 ==> NextBySmear(n) == 0
  {
    hide Smear, FillsBelow, LeastPower;
    NothingAtZero(n);
    if n != 0 {
      var y := Smear(n - 1);
      OneMoreThanFilled(n, y);
    }
  }

  lemma NothingAtZero(n: bv64)
    ensures !LeastPower(n, 0) && LeastPower(0, 1)
  {
  }

  /** What the doubling loop keeps: a power of two whose half is still too small. */
  ghost predicate Doubling(n: bv64, p: bv64) {
    IsPower(p) && (p == 1 || p >> 1 < n)
  }

  /** How far p still is from the largest power of two. */
  function Room(p: bv64): bv64 {
    0x8000_0000_0000_0000 - p
  }

  lemma DoublingStarts(n: bv64)
    ensures Doubling(n, 1)
  {
  }

  lemma DoublingGoesOn(n: bv64, p: bv64)
    requires Doubling(n, p) && p < n <= 0x8000_0000_0000_0000
    ensures Doubling(n, p << 1) && Room(p << 1) < Room(p)
  {
  }

  lemma DoublingEnds(n: bv64, p: bv64)
    requires Doubling(n, p) && !(p < n)
    ensures LeastPower(n, p)
  {
  }

  /** next_power_of_2: doubling until it is large enough. Up to 2^63 it ends, with the same answer. */
  method NextByDoubling(n: bv64) returns (p: bv64)
    requires n <= 0x8000_0000_0000_0000
    ensures LeastPower(n, p) && p == NextBySmear(n)
  {
    hide Smear, NextBySmear, FillsBelow, Doubling, LeastPower, Room;
    SmearRoundsUp(n);
    DoublingStarts(n);
    p := 1;
    if n == 0 {
      DoublingEnds(0, 1);
    } else {
      while p < n
        invariant Doubling(n, p)
        decreases Room(p)
      {
        DoublingGoesOn(n, p);
        p := p << 1;
      }
      DoublingEnds(n, p);
    }
    LeastPowerIsUnique(n, p, NextBySmear(n));
  }

  // ---------------------------------------------------------------- as numbers

  /** The lowest bit, and the others. */
  function Low(w: bv64): nat {
    if w & 1 == 0 then 0 else 1
  }

  function Half(w: bv64): bv64 {
    w >> 1
  }

  /** The number a word stands for. */
  function Value(w: bv64): nat
    decreases w
  {
    if w == 0 then 0 else Halves(w); Low(w) + 2 * Value(Half(w))
  }

  lemma Halves(w: bv64)
    ensures w != 0 ==> Half(w) < w
    ensures w == 0 ==> Half(w) == 0 && Low(w) == 0
  {
  }

  ghost predicate Before(a: bv64, b: bv64) {
    a < b
  }

  lemma LargerHalf(a: bv64, b: bv64)
    requires Before(Half(a), Half(b))
    ensures Before(a, b)
  {
  }

  lemma LargerLowBit(a: bv64, b: bv64)
    requires Half(a) == Half(b) && Low(a) < Low(b)
    ensures Before(a, b)
  {
  }

  lemma SameBits(a: bv64, b: bv64)
    requires Half(a) == Half(b) && Low(a) == Low(b)
    ensures a == b
  {
  }

  lemma ValueOfHalves(w: bv64)
    ensures Value(w) == Low(w) + 2 * Value(Half(w))
  {
    Halves(w);
  }

  lemma SomeBit(w: bv64)
    requires w != 0
    ensures Half(w) < w && (Half(w) != 0 || Low(w) == 1)
  {
  }

  /** Only the zero word stands for zero. */
  lemma {:induction false} ZeroValue(w: bv64)
    requires w != 0
    ensures Value(w) > 0
    decreases w
  {
    SomeBit(w);
    ValueOfHalves(w);
    hide *;
    if Half(w) != 0 { ZeroValue(Half(w)); }
  }

  /** Words that stand for the same number are the same. */
  lemma {:induction false} SameValue(a: bv64, b: bv64)
    requires Value(a) == Value(b)
    ensures a == b
    decreases Value(a)
  {
    if Value(a) == 0 {
      if a != 0 { ZeroValue(a); }
      if b != 0 { ZeroValue(b); }
    } else {
      ValueOfHalves(a);
      ValueOfHalves(b);
      hide *;
      SameValue(Half(a), Half(b));
      SameBits(a, b);
    }
  }

  /** The smaller number has the smaller word. */
  lemma {:induction false} SmallerValue(a: bv64, b: bv64)
    requires Value(a) < Value(b)
    ensures Before(a, b)
    decreases Value(b)
  {
    hide *;
    ValueOfHalves(a);
    ValueOfHalves(b);
    LowIsABit(a);
    LowIsABit(b);
    if Value(Half(a)) < Value(Half(b)) {
      SmallerValue(Half(a), Half(b));
      LargerHalf(a, b);
    } else {
      SameValue(Half(a), Half(b));
      LargerLowBit(a, b);
    }
  }

  lemma LowIsABit(w: bv64)
    ensures Low(w) <= 1
  {
  }

  lemma NotBoth(a: bv64, b: bv64)
    ensures a <= b ==> !Before(b, a)
    ensures a < b ==> a != b
  {
  }

  /** So numbers are in the order of their words. */
  lemma AtMost(a: bv64, b: bv64)
    requires a <= b
    ensures Value(a) <= Value(b)
  {
    NotBoth(a, b);
    hide *;
    if Value(b) < Value(a) { SmallerValue(b, a); }
  }

  lemma Less(a: bv64, b: bv64)
    requires a < b
    ensures Value(a) < Value(b)
  {
    AtMost(a, b);
    NotBoth(a, b);
    hide *;
    if Value(a) == Value(b) { SameValue(a, b); }
  }

  lemma HalfOfPower(p: bv64)
    requires IsPower(p) && p != 1
    ensures IsPower(Half(p)) && Low(p) == 0 && p != 0
  {
  }

  /** One bit set: a power of two. */
  lemma {:induction false} PowerValue(p: bv64) returns (k: nat)
    requires IsPower(p)
    ensures Value(p) == Pow2(k) && (p == 1 <==> k == 0) && (p != 1 ==> Value(Half(p)) == Pow2(k - 1))
    decreases p
  {
    if p == 1 {
      k := 0;
      assert Half(1) == 0 && Low(1) == 1;
    } else {
      HalfOfPower(p);
      Halves(p);
      hide IsPower, Half, Low;
      var j := PowerValue(Half(p));
      ValueOfHalves(p);
      k := j + 1;
    }
  }

  /** On words the least power of two at least n is, as a number, the one the generators compute. */
  lemma LeastPowerIsNext(n: bv64, p: bv64)
    requires LeastPower(n, p)
    ensures Value(p) == NextPowerOf2(Value(n))
  {
    var k := PowerValue(p);
    AtMost(n, p);
    if p != 1 { Less(Half(p), n); }
    hide *;
    Log2Unique(Value(n), k);
    NextIs(Value(n), k);
  }

  lemma NextIs(n: nat, k: nat)
    requires Log2(n) == k
    ensures NextPowerOf2(n) == Pow2(k)
  {
  }

  /** So both forms round up as next_power_of_2 of the generators does. */
  lemma SmearIsNextPowerOf2(n: bv64)
    requires n <= 0x8000_0000_0000_0000
    ensures Value(NextBySmear(n)) == NextPowerOf2(Value(n))
  {
    hide NextBySmear, LeastPower;
    SmearRoundsUp(n);
    LeastPowerIsNext(n, NextBySmear(n));
  }
}
