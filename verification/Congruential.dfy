/** A linear congruential generator with an odd increment and a multiplier that is 1 modulo 4 runs through all residues
    of a power of two before it repeats one. */
module Congruential {
  import opened Words
  import opened Mixing

  /** The generator after n steps, without any wrap-around. */
  ghost function Orbit(a: int, c: int, x: int, n: nat): int {
    if n == 0 then x else a * Orbit(a, c, x, n - 1) + c
  }

  lemma {:induction false} OrbitGoesOn(a: int, c: int, x: int, i: nat, n: nat)
    ensures Orbit(a, c, x, i + n) == Orbit(a, c, Orbit(a, c, x, i), n)
  {
    if n > 0 { OrbitGoesOn(a, c, x, i, n - 1); }
  }

  /** Every step changes the lowest bit. */
  lemma {:induction false} LowestBit(a: int, c: int, x: int, n: nat)
    requires a % 2 == 1 && c % 2 == 1
    ensures (Orbit(a, c, x, n) - x - n) % 2 == 0
  {
    if n > 0 {
      LowestBit(a, c, x, n - 1);
      var before := Orbit(a, c, x, n - 1);
      assert Orbit(a, c, x, n) == a * before + c;
      hide Orbit;
      OneStep(a, c, before);
      EvenSum(a * before + c - before - 1, before - x - (n - 1));
    }
  }

  lemma EvenSum(x: int, y: int)
    requires x % 2 == 0 && y % 2 == 0
    ensures (x + y) % 2 == 0
  {
  }

  lemma OneStep(a: int, c: int, x: int)
    requires a % 2 == 1 && c % 2 == 1
    ensures (a * x + c - x - 1) % 2 == 0
  {
    var h, g := a / 2, c / 2;
    assert a * x == 2 * (h * x) + x by { Doubled(a, h, x); }
    ModUnique(a * x + c - x - 1, h * x + g, 0, 2);
  }

  lemma Doubled(a: int, h: int, x: int)
    requires a == 2 * h + 1
    ensures a * x == 2 * (h * x) + x
  {
  }

  /** What twice two steps do, halved, is a generator of the same kind. */
  function DoubledIncrement(k: int, c: int, x: int): int {
    4 * (k * (2 * k + 1) * x) + 2 * (k * c) + c
  }

  lemma DoubledIsOdd(k: int, c: int, x: int)
    requires c % 2 == 1
    ensures DoubledIncrement(k, c, x) % 2 == 1
  {
    OddSum(k * (2 * k + 1) * x, k * c, c);
  }

  lemma OddSum(h: int, g: int, c: int)
    requires c % 2 == 1
    ensures (4 * h + 2 * g + c) % 2 == 1
  {
  }

  lemma {:induction false} TwoAtATime(k: int, c: int, x: int, m: nat)
    ensures var a := 4 * k + 1;
      Orbit(a, c, x, 2 * m) == x + 2 * Orbit(a * a, DoubledIncrement(k, c, x), 0, m)
  {
    if m > 0 {
      TwoAtATime(k, c, x, m - 1);
      var a, d := 4 * k + 1, DoubledIncrement(k, c, x);
      var z := Orbit(a * a, d, 0, m - 1);
      NextTwo(a, c, x, m - 1);
      assert Orbit(a * a, d, 0, m) == a * a * z + d;
      hide Orbit, DoubledIncrement;
      TwoSteps(k, c, x, z);
    }
  }

  lemma NextTwo(a: int, c: int, x: int, m: nat)
    ensures Orbit(a, c, x, 2 * (m + 1)) == a * (a * Orbit(a, c, x, 2 * m) + c) + c
  {
    assert Orbit(a, c, x, 2 * m + 1) == a * Orbit(a, c, x, 2 * m) + c;
    assert Orbit(a, c, x, 2 * m + 2) == a * Orbit(a, c, x, 2 * m + 1) + c;
  }

  lemma TwoSteps(k: int, c: int, x: int, z: int)
    ensures var a := 4 * k + 1;
      a * (a * (x + 2 * z) + c) + c == x + 2 * (a * a * z + DoubledIncrement(k, c, x))
  {
    var a := 4 * k + 1;
    Distribute(a, a * (x + 2 * z), c);
    Associate(a, x + 2 * z);
    Distribute(a * a, x, 2 * z);
    Associate2(a * a, z);
    SquareOf(k, x);
    FourTimes(k, c);
  }

  lemma Distribute(a: int, s: int, c: int)
    ensures a * (s + c) == a * s + a * c
  {
  }

  lemma Associate(a: int, s: int)
    ensures a * (a * s) == (a * a) * s
  {
  }

  lemma Associate2(q: int, z: int)
    ensures q * (2 * z) == 2 * (q * z)
  {
  }

  lemma FourTimes(k: int, c: int)
    ensures (4 * k + 1) * c + c == 2 * (2 * (k * c) + c)
  {
  }

  lemma SquareOf(k: int, x: int)
    ensures (4 * k + 1) * (4 * k + 1) * x == x + 8 * (k * (2 * k + 1) * x)
  {
    var q := k * (2 * k + 1);
    assert (4 * k + 1) * (4 * k + 1) == 1 + 8 * q;
    Scaled(q, x);
  }

  lemma Scaled(q: int, x: int)
    ensures (1 + 8 * q) * x == x + 8 * (q * x)
  {
  }

  /** Back at the first residue after n steps: n is even, and so is the halved generator after half of them. */
  lemma HalvedRun(b: int, c: int, x: int, n: nat, k: nat)
    requires c % 2 == 1 && k > 0 && (Orbit(4 * b + 1, c, x, n) - x) % Pow2(k) == 0
    ensures n % 2 == 0
    ensures var a := 4 * b + 1; (Orbit(a * a, DoubledIncrement(b, c, x), 0, n / 2) - 0) % Pow2(k - 1) == 0
  {
    assert Pow2(k) == 2 * Pow2(k - 1);
    hide *;
    var end := Orbit(4 * b + 1, c, x, n);
    OneMoreThanFour(b);
    LowestBit(4 * b + 1, c, x, n);
    HalfMultiple(end - x, Pow2(k - 1));
    EvenDifference(end - x, n);
    TwoAtATime(b, c, x, n / 2);
    HalfOfDouble(end - x, Orbit((4 * b + 1) * (4 * b + 1), DoubledIncrement(b, c, x), 0, n / 2));
  }

  lemma OneMoreThanFour(b: int)
    ensures (4 * b + 1) % 2 == 1
  {
  }

  lemma EvenDifference(d: int, n: nat)
    requires d % 2 == 0 && (d - n) % 2 == 0
    ensures n % 2 == 0 && 2 * (n / 2) == n
  {
  }

  lemma HalfOfDouble(d: int, h: int)
    requires d == 2 * h
    ensures d / 2 == h
  {
  }

  /** After n steps the residue modulo 2^k is the first one again only if 2^k divides n. */
  lemma {:induction false} FullPeriod(a: int, c: int, x: int, n: nat, k: nat)
    requires a % 4 == 1 && c % 2 == 1 && (Orbit(a, c, x, n) - x) % Pow2(k) == 0
    ensures n % Pow2(k) == 0
    decreases k
  {
    if k > 0 {
      assert Pow2(k) == 2 * Pow2(k - 1);
      hide *;
      var b := a / 4;
      assert a == 4 * b + 1;
      HalvedRun(b, c, x, n, k);
      SquareIsOne(b);
      DoubledIsOdd(b, c, x);
      FullPeriod(a * a, DoubledIncrement(b, c, x), 0, n / 2, k - 1);
      TwiceMultiple(n / 2, Pow2(k - 1));
    }
  }

  lemma HalfMultiple(d: int, p: nat)
    requires p > 0 && d % (2 * p) == 0
    ensures d % 2 == 0 && (d / 2) % p == 0
  {
    var q := d / (2 * p);
    TwiceQuotient(d, p, q);
    assert d / 2 == q * p + 0;
    ModUnique(d / 2, q, 0, p);
  }

  lemma SquareIsOne(b: int)
    ensures ((4 * b + 1) * (4 * b + 1)) % 4 == 1
  {
    var q := 4 * (b * b) + 2 * b;
    assert (4 * b + 1) * (4 * b + 1) == q * 4 + 1;
    ModUnique((4 * b + 1) * (4 * b + 1), q, 1, 4);
  }

  /** Two states less than 2^k steps apart differ modulo 2^k. */
  lemma StatesDiffer(a: int, c: int, x: int, i: nat, j: nat, k: nat)
    requires a % 4 == 1 && c % 2 == 1 && i < j < i + Pow2(k)
    ensures Orbit(a, c, x, i) % Pow2(k) != Orbit(a, c, x, j) % Pow2(k)
  {
    hide Orbit, Pow2;
    var p := Pow2(k);
    if Orbit(a, c, x, i) % p == Orbit(a, c, x, j) % p {
      OrbitGoesOn(a, c, x, i, j - i);
      CongruentDifference(Orbit(a, c, x, j), Orbit(a, c, x, i), p);
      FullPeriod(a, c, Orbit(a, c, x, i), j - i, k);
      ModUnique(j - i, 0, j - i, p);
    }
  }
}
