/** Counting and modular arithmetic: what the placement proofs need of numbers. */
module Numbers {
  import opened Words

  // ---------------------------------------------------------------- powers of two

  ghost predicate IsPowerOf2(m: nat) {
    exists k: nat :: m == Pow2(k)
  }

  /** The least l >= from with 2^l >= n. */
  function LogFrom(n: nat, from: nat): (l: nat)
    ensures l >= from && Pow2(l) >= n
    ensures l > from ==> Pow2(l - 1) < n
    decreases n - Pow2(from)
  {
    if Pow2(from) >= n then from else LogFrom(n, from + 1)
  }

  /** The least l with 2^l >= n. */
  function Log2(n: nat): (l: nat)
    ensures Pow2(l) >= n
    ensures l > 0 ==> Pow2(l - 1) < n
  {
    LogFrom(n, 0)
  }

  /** The least power of two that is at least n. */
  function NextPowerOf2(n: nat): nat {
    Pow2(Log2(n))
  }

  method ComputeLog2(n: nat) returns (l: nat)
    ensures l == Log2(n)
  {
    l := 0;
    while Pow2(l) < n
      invariant Log2(n) == LogFrom(n, l)
      decreases n - Pow2(l)
    {
      l := l + 1;
    }
  }

  lemma {:induction false} Pow2Increases(a: nat, b: nat)
    requires a < b
    ensures 2 * Pow2(a) <= Pow2(b)
  {
    if a + 1 < b {
      Pow2Increases(a, b - 1);
    }
  }

  lemma Pow2Grows(a: nat, b: nat)
    requires a <= b
    ensures Pow2(a) <= Pow2(b)
  {
    if a < b { Pow2Increases(a, b); }
  }

  /** The exponent is pinned down by the two bounds Log2 gives. */
  lemma Log2Unique(n: nat, l: nat)
    requires n <= Pow2(l) && (l > 0 ==> Pow2(l - 1) < n)
    ensures Log2(n) == l
  {
    var m := Log2(n);
    if m < l {
      if m < l - 1 { Pow2Increases(m, l - 1); }
    } else if l < m {
      if l < m - 1 { Pow2Increases(l, m - 1); }
    }
  }

  /** Log2 undoes Pow2. */
  lemma Log2OfPow2(k: nat)
    ensures Log2(Pow2(k)) == k
  {
    Log2Unique(Pow2(k), k);
  }

  /** NextPowerOf2(n) is the least power of two that is at least n, and less than twice n. */
  lemma NextPowerOf2IsLeast(n: nat, k: nat)
    ensures n <= NextPowerOf2(n)
    ensures n <= Pow2(k) ==> NextPowerOf2(n) <= Pow2(k)
    ensures n >= 1 ==> NextPowerOf2(n) < 2 * n
  {
    var l := Log2(n);
    if k < l {
      if k < l - 1 { Pow2Increases(k, l - 1); }
    } else if l < k {
      Pow2Increases(l, k);
    }
  }

  // ---------------------------------------------------------------- modular arithmetic

  lemma OneMoreRow(k: nat, size: nat)
    ensures (k + 1) * size == k * size + size
  {
  }

  lemma DivBound(x: nat, p: nat, q: nat)
    requires p > 0 && x < p * q
    ensures x / p < q
  {
  }

  lemma ModShift(x: int, k: int, m: int)
    requires m > 0
    ensures (x + k * m) % m == x % m
  {
    assert x + k * m == (x / m + k) * m + x % m;
    ModUnique(x + k * m, x / m + k, x % m, m);
  }

  /** Reducing one summand first does not change a sum modulo m. */
  lemma ModAbsorb(x: int, y: int, m: int)
    requires m > 0
    ensures (x % m + y) % m == (x + y) % m
    ensures (y + x % m) % m == (y + x) % m
  {
    assert x + y == x % m + y + (x / m) * m;
    ModShift(x % m + y, x / m, m);
  }

  /** Adding the same displacement keeps different residues different. */
  lemma ShiftInjective(a: int, b: int, d: int, m: int)
    requires m > 0 && (a + d) % m == (b + d) % m
    ensures a % m == b % m
  {
    ModAbsorb(a + d, -d, m);
    ModAbsorb(b + d, -d, m);
    assert a + d + -d == a && b + d + -d == b;
  }

  /** Numbers below m stay different when the same displacement is added modulo m. */
  lemma DisplacementInjective(a: nat, b: nat, d: nat, m: nat)
    requires a < m && b < m && (a + d) % m == (b + d) % m
    ensures a == b
  {
    ShiftInjective(a, b, d, m);
    ModUnique(a, 0, a, m);
    ModUnique(b, 0, b, m);
  }

  /** Reducing modulo a multiple first does not change the residue. */
  lemma ModOfMod(x: int, m: int, k: int)
    requires m > 0 && k > 0
    ensures k * m > 0 && (x % (k * m)) % m == x % m
  {
    var n := k * m;
    assert x == x % n + (x / n) * k * m;
    ModShift(x % n, (x / n) * k, m);
  }

  /** Congruence modulo a multiple is congruence modulo the divisor. */
  lemma ModDivides(x: int, y: int, m: int, k: int)
    requires m > 0 && k > 0 && x % (k * m) == y % (k * m)
    ensures x % m == y % m
  {
    var n := k * m;
    var qx, qy := x / n, y / n;
    assert x == (qx * k) * m + x % n && y == (qy * k) * m + y % n;
    ModShift(x % n, qx * k, m);
    ModShift(y % n, qy * k, m);
  }

  // ---------------------------------------------------------------- counting

  /** The numbers below n. */
  function Below(n: nat): (s: set<nat>)
    ensures forall v: nat :: v in s <==> v < n
    ensures |s| == n
  {
    if n == 0 then {} else
      var s := Below(n - 1);
      s + {n - 1}
  }

  lemma SubsetSize<T>(a: set<T>, b: set<T>)
    requires a <= b
    ensures |a| <= |b|
    ensures |a| == |b| ==> a == b
    decreases |a|
  {
    var rest := b - a;
    assert b == a + rest;
    assert |b| == |a| + |rest|;
  }

  /** The image of a set is no larger than the set. */
  lemma {:induction false} ImageSize<S, T>(a: set<S>, f: S --> T, b: set<T>)
    requires forall x | x in a :: f.requires(x)
    requires forall y | y in b :: exists x :: x in a && f(x) == y
    ensures |b| <= |a|
    decreases |a|
  {
    if b != {} {
      var y :| y in b;
      var x :| x in a && f(x) == y;
      ImageSize(a - {x}, f, b - {y});
    }
  }

  ghost predicate Distinct<T>(s: seq<T>) {
    forall i: nat, j: nat | i < j < |s| :: s[i] != s[j]
  }

  lemma NextDistinct<T>(s: seq<T>, b: nat)
    requires Distinct(s) && b < |s|
    ensures s[b] !in s[..b] && s[..b] + [s[b]] == s[..b + 1]
  {
  }

  ghost function Elements<T>(s: seq<T>): set<T> {
    set x | x in s
  }

  lemma {:induction false} DistinctSize<T>(s: seq<T>)
    requires Distinct(s)
    ensures |Elements(s)| == |s|
  {
    if s != [] {
      var t := s[..|s| - 1];
      DistinctSize(t);
      var last := s[|s| - 1];
      assert last !in t;
      assert Elements(s) == Elements(t) + {last};
    }
  }

  lemma {:induction false} ElementCount<T>(s: seq<T>)
    ensures |Elements(s)| <= |s|
    ensures |Elements(s)| == |s| ==> Distinct(s)
  {
    if s != [] {
      var t, last := s[..|s| - 1], s[|s| - 1];
      ElementCount(t);
      assert Elements(s) == Elements(t) + {last};
    }
  }

  /** Rearranging a list keeps its members, and keeps them different. */
  lemma Rearranged<T>(s: seq<T>, t: seq<T>)
    requires multiset(s) == multiset(t) && Distinct(s)
    ensures Distinct(t) && forall x :: x in t <==> x in s
  {
    assert |s| == |multiset(s)| == |multiset(t)| == |t|;
    forall x ensures x in t <==> x in s {
      assert x in multiset(s) <==> x in multiset(t);
    }
    DistinctSize(s);
    assert Elements(s) == Elements(t);
    ElementCount(t);
  }

  /** Pigeonhole: at most n different numbers below n; n of them are all of them. */
  lemma DistinctBelow(s: seq<nat>, n: nat)
    requires Distinct(s) && forall i: nat | i < |s| :: s[i] < n
    ensures |s| <= n
    ensures |s| == n ==> forall v: nat | v < n :: v in s
  {
    DistinctSize(s);
    var a := Elements(s);
    assert a <= Below(n);
    SubsetSize(a, Below(n));
    forall v: nat | |s| == n && v < n ensures v in s {
      assert v in Below(n);
    }
  }
}
