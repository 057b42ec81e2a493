/** The 64-bit mixing steps all hashes are made of. */
module Mixing {
  import opened Words

  function Times(a: nat, b: nat): (r: nat)
    ensures r < TWO_TO_THE_64
  {
    (a * b) % TWO_TO_THE_64
  }

  function ShiftRight(a: nat, n: nat): (r: nat)
    ensures r <= a
  {
    a / Pow2(n)
  }

  lemma Xor64(a: nat, b: nat)
    requires a < TWO_TO_THE_64 && b < TWO_TO_THE_64
    ensures Xor(a, b) < TWO_TO_THE_64
  {
    Pow2Of64();
    XorBound(a, b, 64);
  }

  /** One avalanche step: xor with a right shift of itself, then multiply. */
  function Avalanche(z: nat, shift: nat, factor: nat): (r: nat)
    ensures r < TWO_TO_THE_64
  {
    Times(Xor(z, ShiftRight(z, shift)), factor)
  }

  lemma ZeroAvalanche(shift: nat, factor: nat)
    ensures Avalanche(0, shift, factor) == 0
  {
  }

  /** A word made of n low bits and the rest. */
  function Joined(low: nat, n: nat, high: nat): nat {
    low + Pow2(n) * high
  }

  lemma JoinedParts(low: nat, n: nat, high: nat)
    requires low < Pow2(n)
    ensures ShiftRight(Joined(low, n, high), n) == high && Joined(low, n, high) % Pow2(n) == low
  {
    hide Pow2;
    ModUnique(low + Pow2(n) * high, high, low, Pow2(n));
  }

  // ---------------------------------------------------------------- no step loses anything

  lemma ShiftSteps(a: nat, n: nat)
    ensures ShiftRight(a, 0) == a && ShiftRight(a, n + 1) == ShiftRight(a / 2, n)
  {
    assert Pow2(0) == 1;
    DivideTwice(a, 2, Pow2(n));
  }

  /** Shifting right distributes over exclusive or. */
  lemma {:induction false} ShiftOfXor(a: nat, b: nat, n: nat)
    ensures ShiftRight(Xor(a, b), n) == Xor(ShiftRight(a, n), ShiftRight(b, n))
    decreases n
  {
    hide *;
    if n > 0 {
      ShiftOfXor(a / 2, b / 2, n - 1);
      HalfOfXor(a, b);
      ShiftSteps(Xor(a, b), n - 1);
      ShiftSteps(a, n - 1);
      ShiftSteps(b, n - 1);
    } else {
      ShiftSteps(Xor(a, b), 0);
      ShiftSteps(a, 0);
      ShiftSteps(b, 0);
    }
  }

  /** An odd factor hides no power of two. */
  lemma {:induction false} OddFactor(d: int, k: int, n: nat)
    requires k % 2 == 1 && (d * k) % Pow2(n) == 0
    ensures d % Pow2(n) == 0
    decreases n
  {
    if n > 0 {
      var p := Pow2(n - 1);
      var q := (d * k) / Pow2(n);
      assert d * k == 2 * (p * q) by { TwiceQuotient(d * k, p, q); }
      hide Pow2;
      var e := EvenFactor(d, k, p * q);
      ModUnique(e * k, q, 0, p);
      OddFactor(e, k, n - 1);
      TwiceMultiple(e, p);
    }
  }

  lemma TwiceQuotient(x: int, p: nat, q: int)
    requires p > 0 && x % (2 * p) == 0 && q == x / (2 * p)
    ensures x == 2 * (p * q)
  {
  }

  /** If an odd multiple is even, so is the number. */
  lemma EvenFactor(d: int, k: int, h: int) returns (e: int)
    requires k % 2 == 1 && d * k == 2 * h
    ensures d == 2 * e && e * k == h
  {
    e := d / 2;
    var j := k / 2;
    assert k == 2 * j + 1;
    assert d * k == 2 * (d * j) + d;
    assert d == 2 * (h - d * j);
  }

  lemma TwiceMultiple(e: int, p: nat)
    requires p > 0 && e % p == 0
    ensures (2 * e) % (2 * p) == 0
  {
    var q := e / p;
    assert e == q * p;
    assert 2 * e == q * (2 * p);
    ModUnique(2 * e, q, 0, 2 * p);
  }

  lemma CongruentDifference(x: int, y: int, m: nat)
    requires m > 0 && x % m == y % m
    ensures (x - y) % m == 0
  {
    assert x - y == (x / m - y / m) * m;
    ModUnique(x - y, x / m - y / m, 0, m);
  }

  /** A difference below m that is a multiple of m is zero. */
  lemma SmallDifference(a: int, b: int, m: nat)
    requires a - b < m && b - a < m && (a - b) % m == 0
    ensures a == b
  {
    var q := (a - b) / m;
    assert a - b == q * m;
    MultipleSize(q, m);
  }

  /** Multiplying by an odd number modulo 2^64. */
  lemma TimesInjective(a: nat, b: nat, k: nat)
    requires a - b < TWO_TO_THE_64 && b - a < TWO_TO_THE_64 && k % 2 == 1 && Times(a, k) == Times(b, k)
    ensures a == b
  {
    Pow2Of64();
    hide Pow2;
    CongruentDifference(a * k, b * k, TWO_TO_THE_64);
    assert a * k - b * k == (a - b) * k;
    OddFactor(a - b, k, 64);
    SmallDifference(a, b, TWO_TO_THE_64);
  }

  /** Xor with a right shift of itself. */
  lemma XorShiftInjective(x: nat, y: nat, shift: nat)
    requires shift > 0 && Xor(x, ShiftRight(x, shift)) == Xor(y, ShiftRight(y, shift))
    ensures x == y
  {
    var a, b, w := ShiftRight(x, shift), ShiftRight(y, shift), Xor(x, y);
    ShiftOfXor(x, y, shift);
    hide Xor, ShiftRight;
    XorSwapMiddle(x, a, y, b);
    XorCancels(Xor(x, a));
    XorTellsApart(w, Xor(a, b));
    ShiftShrinks(w, shift);
    XorTellsApart(x, y);
  }

  lemma ShiftShrinks(w: nat, shift: nat)
    requires shift > 0 && ShiftRight(w, shift) == w
    ensures w == 0
  {
    hide ShiftRight;
    ShiftSteps(w, shift - 1);
  }

  /** Both steps together. */
  lemma AvalancheInjective(x: nat, y: nat, shift: nat, factor: nat)
    requires x < TWO_TO_THE_64 && y < TWO_TO_THE_64 && shift > 0 && factor % 2 == 1
    requires Avalanche(x, shift, factor) == Avalanche(y, shift, factor)
    ensures x == y
  {
    hide Xor, Times, ShiftRight;
    Xor64(x, ShiftRight(x, shift));
    Xor64(y, ShiftRight(y, shift));
    TimesInjective(Xor(x, ShiftRight(x, shift)), Xor(y, ShiftRight(y, shift)), factor);
    XorShiftInjective(x, y, shift);
  }
}
