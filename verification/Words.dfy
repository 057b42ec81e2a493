/** Bytes, byte strings and 64-bit words.
    A word is a number below 2^64, with wrap-around written out; a word assembled from
    bytes is treated as those eight bytes, low end first, wherever only bytes matter. */
module Words {

  type Byte = b: nat | b < 256

  type Bytes = seq<Byte>

  const TWO_TO_THE_31: nat := 0x8000_0000
  const TWO_TO_THE_32: nat := 0x1_0000_0000
  const TWO_TO_THE_64: nat := 0x1_0000_0000_0000_0000

  // ---------------------------------------------------------------- byte strings

  /** Byte i of a string that is followed by as many zeros as anyone asks for. */
  function ByteAt(s: Bytes, i: nat): Byte {
    if i < |s| then s[i] else 0
  }

  /** The bytes [from, from + n) of a string followed by zeros. */
  function Window(s: Bytes, from: nat, n: nat): (r: Bytes)
    ensures |r| == n
    ensures forall i: nat | i < n :: r[i] == ByteAt(s, from + i)
  {
    seq<Byte>(n, i requires 0 <= i => ByteAt(s, from + i))
  }

  function Zeros(n: nat): (z: Bytes)
    ensures |z| == n
  {
    seq(n, _ => 0)
  }

  /** The string s followed by zeros, cut at n bytes. */
  function Padded(s: Bytes, n: nat): (r: Bytes)
    ensures |r| == n
    ensures forall i: nat | i < n :: r[i] == ByteAt(s, i)
  {
    Window(s, 0, n)
  }

  /** Among strings that fit, padding loses only the length. */
  lemma PaddedInjective(s: Bytes, t: Bytes, n: nat)
    requires |s| == |t| <= n
    requires Padded(s, n) == Padded(t, n)
    ensures s == t
  {
    forall i: nat | i < |s| ensures s[i] == t[i] {
      assert Padded(s, n)[i] == Padded(t, n)[i];
    }
  }

  // ---------------------------------------------------------------- arithmetic

  lemma MultipleSize(d: int, m: int)
    requires m > 0
    ensures d >= 1 ==> d * m >= m
    ensures d <= -1 ==> d * m <= -m
  {
  }

  /** Quotient and remainder are unique. */
  lemma ModUnique(x: int, q: int, r: int, m: int)
    requires 0 <= r < m && x == q * m + r
    ensures x % m == r && x / m == q
  {
    var d := x / m - q;
    assert d * m == r - x % m;
    MultipleSize(d, m);
  }

  // ---------------------------------------------------------------- words

  function Pow2(n: nat): (p: nat)
    ensures p >= 1
  {
    if n == 0 then 1 else 2 * Pow2(n - 1)
  }

  lemma {:induction false} Pow2Add(a: nat, b: nat)
    ensures Pow2(a + b) == Pow2(a) * Pow2(b)
  {
    if a == 0 {
    } else {
      Pow2Add(a - 1, b);
      calc {
        Pow2(a) * Pow2(b);
        (2 * Pow2(a - 1)) * Pow2(b);
        2 * (Pow2(a - 1) * Pow2(b));
        Pow2(a + b);
      }
    }
  }

  lemma Pow2Of0()
    ensures Pow2(0) == 1
  {
  }

  lemma Pow2Of8()
    ensures Pow2(8) == 256
  {
    assert Pow2(4) == 16;
  }

  lemma Pow2Of64()
    ensures Pow2(64) == TWO_TO_THE_64
  {
    var e := 8;
    Pow2Of8();
    hide Pow2;
    Pow2Add(e, e);
    Pow2Add(2 * e, 2 * e);
    Pow2Add(4 * e, 4 * e);
  }

  /** The number that some bytes stand for, low end first. */
  function LittleEndian(w: Bytes): nat {
    if w == [] then 0 else w[0] + 256 * LittleEndian(w[1..])
  }

  lemma {:induction false} LittleEndianBound(w: Bytes)
    ensures LittleEndian(w) < Pow2(8 * |w|)
  {
    if w != [] {
      LittleEndianBound(w[1..]);
      Pow2Add(8, 8 * |w[1..]|);
      Pow2Of8();
    }
  }

  /** Byte strings of one length are different numbers when they differ. */
  lemma {:induction false} LittleEndianInjective(v: Bytes, w: Bytes)
    requires |v| == |w|
    requires LittleEndian(v) == LittleEndian(w)
    ensures v == w
  {
    if v != [] {
      LittleEndianInjective(v[1..], w[1..]);
    }
  }

  /** Placing one more byte on top of a number. */
  lemma {:induction false} LittleEndianAppend(w: Bytes, x: Byte)
    ensures LittleEndian(w + [x]) == LittleEndian(w) + Pow2(8 * |w|) * x
  {
    if w == [] {
      assert LittleEndian([x]) == x;
    } else {
      LittleEndianAppend(w[1..], x);
      assert (w + [x])[1..] == w[1..] + [x];
      Pow2Add(8, 8 * |w[1..]|);
      Pow2Of8();
      assert Pow2(8 * |w|) * x == 256 * (Pow2(8 * |w[1..]|) * x);
    }
  }

  lemma ScaledProduct(p: nat, x: nat)
    ensures (256 * p) * x == 256 * (p * x)
  {
  }

  /** Bytes placed one string above another. */
  lemma {:induction false} LittleEndianConcat(v: Bytes, w: Bytes)
    ensures LittleEndian(v + w) == LittleEndian(v) + Pow2(8 * |v|) * LittleEndian(w)
  {
    if v == [] {
      assert v + w == w;
    } else {
      LittleEndianConcat(v[1..], w);
      assert (v + w)[1..] == v[1..] + w;
      Pow2Of8();
      Pow2Add(8, 8 * |v[1..]|);
      hide Pow2;
      ScaledProduct(Pow2(8 * |v[1..]|), LittleEndian(w));
    }
  }

  /** Byte b of a number: shift right by 8*b, mask with 0xFF. */
  function ByteOf(v: nat, b: nat): Byte {
    (v / Pow2(8 * b)) % 256
  }

  /** Shifting and masking recovers the bytes of a word. */
  lemma {:induction false} ByteOfLittleEndian(w: Bytes, b: nat)
    requires b < |w|
    ensures ByteOf(LittleEndian(w), b) == w[b]
  {
    var v, rest := LittleEndian(w), LittleEndian(w[1..]);
    if b == 0 {
      assert Pow2(0) == 1;
    } else {
      ByteOfLittleEndian(w[1..], b - 1);
      Pow2Of8();
      Pow2Add(8, 8 * (b - 1));
      DivideTwice(v, 256, Pow2(8 * (b - 1)));
      assert v / 256 == rest;
    }
  }

  lemma DivideTwice(x: nat, a: nat, b: nat)
    requires a > 0 && b > 0
    ensures a * b > 0 && x / (a * b) == (x / a) / b
  {
    var q, r := x / a, x % a;
    var qq, rr := q / b, q % b;
    assert x == a * (b * qq + rr) + r == (a * b) * qq + (a * rr + r);
    assert 0 <= a * rr + r < a * b by {
      assert a * rr + r < a * rr + a == a * (rr + 1);
      assert rr + 1 <= b;
      AtMostTimes(a, rr + 1, b);
    }
    ModUnique(x, qq, a * rr + r, a * b);
  }

  lemma AtMostTimes(a: nat, x: nat, y: nat)
    requires x <= y
    ensures a * x <= a * y
  {
  }

  /** The eight bytes of lane number `lane`. */
  function Octet(row: Bytes, lane: nat): (w: Bytes)
    requires 8 * lane + 8 <= |row|
    ensures |w| == 8
  {
    row[8 * lane..8 * lane + 8]
  }

  /** A row of bytes, read as 64-bit words. */
  function LaneValues(row: Bytes): (lanes: seq<nat>)
    requires |row| % 8 == 0
    ensures |lanes| == |row| / 8
  {
    seq(|row| / 8, l requires 0 <= l < |row| / 8 => LittleEndian(Octet(row, l)))
  }

  lemma LaneValuesInjective(r: Bytes, s: Bytes)
    requires |r| == |s| && |r| % 8 == 0
    requires LaneValues(r) == LaneValues(s)
    ensures r == s
  {
    forall i: nat | i < |r| ensures r[i] == s[i] {
      assert LaneValues(r)[i / 8] == LaneValues(s)[i / 8];
      LittleEndianInjective(Octet(r, i / 8), Octet(s, i / 8));
      assert Octet(r, i / 8)[i % 8] == r[i] && Octet(s, i / 8)[i % 8] == s[i];
    }
  }

  /** The loop that assembles one lane of a string byte by byte. */
  method AssembleLane(s: Bytes, lane: nat) returns (v: nat)
    ensures v == LittleEndian(Window(s, 8 * lane, 8))
  {
    v := 0;
    ghost var w := Window(s, 8 * lane, 8);
    for b := 0 to 8
      invariant v == LittleEndian(w[..b])
    {
      var i := 8 * lane + b;
      LittleEndianAppend(w[..b], w[b]);
      assert w[..b] + [w[b]] == w[..b + 1];
      if i < |s| {
        v := v + Pow2(8 * b) * s[i];
      }
    }
    assert w[..8] == w;
  }

  // ---------------------------------------------------------------- bitwise operations

  /** Bitwise exclusive or. */
  function Xor(a: nat, b: nat): nat
    decreases a + b
  {
    if a == 0 && b == 0 then 0 else (a + b) % 2 + 2 * Xor(a / 2, b / 2)
  }

  /** Bitwise or. */
  function Or(a: nat, b: nat): nat
    decreases a + b
  {
    if a == 0 && b == 0 then 0 else (if a % 2 == 1 || b % 2 == 1 then 1 else 0) + 2 * Or(a / 2, b / 2)
  }

  /** Bitwise and. */
  function And(a: nat, b: nat): nat
    decreases a + b
  {
    if a == 0 && b == 0 then 0 else (if a % 2 == 1 && b % 2 == 1 then 1 else 0) + 2 * And(a / 2, b / 2)
  }

  /** Masking with 2^k - 1 is the remainder modulo 2^k. */
  lemma {:induction false} MaskIsRemainder(x: nat, k: nat)
    ensures And(x, Pow2(k) - 1) == x % Pow2(k)
  {
    hide And;
    if k == 0 {
      AndZero(x);
    } else {
      MaskIsRemainder(x / 2, k - 1);
      AndOdd(x, Pow2(k - 1) - 1);
      RemainderOfHalf(x, Pow2(k - 1));
    }
  }

  lemma AndOdd(x: nat, h: nat)
    ensures And(x, 2 * h + 1) == x % 2 + 2 * And(x / 2, h)
  {
    assert (2 * h + 1) / 2 == h && (2 * h + 1) % 2 == 1;
  }

  lemma RemainderOfHalf(x: nat, p: nat)
    requires p > 0
    ensures x % 2 + 2 * ((x / 2) % p) == x % (2 * p)
  {
    var q := (x / 2) / p;
    assert x / 2 == p * q + (x / 2) % p;
    assert x == (2 * p) * q + (x % 2 + 2 * ((x / 2) % p));
    ModUnique(x, q, x % 2 + 2 * ((x / 2) % p), 2 * p);
  }

  lemma {:induction false} AndZero(a: nat)
    ensures And(a, 0) == 0
  {
    if a != 0 { AndZero(a / 2); }
  }

  lemma {:induction false} AndAtMost(a: nat, b: nat)
    ensures And(a, b) <= a
    decreases a + b
  {
    if a != 0 || b != 0 { AndAtMost(a / 2, b / 2); }
  }

  /** A byte under a mask of all ones, or of all zeros. */
  lemma AndByte(x: Byte)
    ensures And(x, 0xFF) == x && And(x, 0) == 0
  {
    hide And;
    Pow2Of8();
    MaskIsRemainder(x, 8);
    AndZero(x);
  }

  lemma {:induction false} AndSelf(a: nat)
    ensures And(a, a) == a
  {
    if a != 0 { AndSelf(a / 2); }
  }

  /** m & (m - 1) is zero exactly for the powers of two. */
  lemma {:induction false} OneBitTest(m: nat)
    requires m > 0
    ensures And(m, m - 1) == 0 <==> exists k: nat :: m == Pow2(k)
  {
    if m % 2 == 1 {
      AndSelf(m / 2);
      assert And(m, m - 1) == 2 * (m / 2);
      OddPower(m);
    } else {
      assert And(m, m - 1) == 2 * And(m / 2, m / 2 - 1);
      OneBitTest(m / 2);
      EvenPower(m);
    }
  }

  lemma OddPower(m: nat)
    requires m % 2 == 1
    ensures m / 2 == 0 <==> exists k: nat :: m == Pow2(k)
  {
    if m == 1 {
      var zero: nat := 0;
      assert m == Pow2(zero);
    }
    if k: nat :| m == Pow2(k) {
      Pow2Parity(k);
      assert m == 1;
    }
  }

  lemma Pow2Parity(k: nat)
    ensures if k == 0 then Pow2(k) == 1 else Pow2(k) % 2 == 0
  {
    if k > 0 {
      assert Pow2(k) == 2 * Pow2(k - 1);
      hide Pow2;
      EvenNumber(Pow2(k - 1));
    }
  }

  lemma EvenNumber(x: nat)
    ensures (2 * x) % 2 == 0
  {
  }

  lemma EvenPower(m: nat)
    requires m % 2 == 0
    ensures (exists k: nat :: m / 2 == Pow2(k)) <==> exists k: nat :: m == Pow2(k)
  {
    if k: nat :| m / 2 == Pow2(k) {
      assert m == Pow2(k + 1);
    }
    if k: nat :| m == Pow2(k) {
      assert k > 0;
      var j: nat := k - 1;
      assert m / 2 == Pow2(j);
    }
  }

  /** Xor of n-bit numbers is an n-bit number. */
  lemma {:induction false} XorBound(a: nat, b: nat, n: nat)
    requires a < Pow2(n) && b < Pow2(n)
    ensures Xor(a, b) < Pow2(n)
  {
    if a != 0 || b != 0 {
      XorBound(a / 2, b / 2, n - 1);
    }
  }

  lemma {:induction false} OrBound(a: nat, b: nat, n: nat)
    requires a < Pow2(n) && b < Pow2(n)
    ensures Or(a, b) < Pow2(n)
  {
    if a != 0 || b != 0 {
      OrBound(a / 2, b / 2, n - 1);
    }
  }

  /** Or only ever sets bits. */
  lemma {:induction false} OrAtLeast(a: nat, b: nat)
    ensures Or(a, b) >= a && Or(a, b) >= b
    decreases a + b
  {
    if a != 0 || b != 0 {
      OrAtLeast(a / 2, b / 2);
    }
  }

  lemma {:induction false} OrZero(a: nat)
    ensures Or(0, a) == a
  {
    if a != 0 {
      OrZero(a / 2);
    }
  }

  lemma {:induction false} XorZero(a: nat)
    ensures Xor(a, 0) == a
  {
    if a != 0 {
      XorZero(a / 2);
    }
  }

  lemma {:induction false} XorCancels(a: nat)
    ensures Xor(a, a) == 0
  {
    if a != 0 {
      XorCancels(a / 2);
    }
  }

  /** Xor is zero for equal numbers only. */
  lemma {:induction false} XorTellsApart(a: nat, b: nat)
    ensures Xor(a, b) == 0 <==> a == b
    decreases a + b
  {
    if a != 0 || b != 0 {
      XorTellsApart(a / 2, b / 2);
      XorHalves(a, b, Xor(a / 2, b / 2));
    }
  }

  /** Or is zero for zeros only. */
  lemma OrOfZeros(a: nat, b: nat)
    ensures Or(a, b) == 0 <==> a == 0 && b == 0
  {
    OrAtLeast(a, b);
  }

  lemma {:induction false} XorCommutes(a: nat, b: nat)
    ensures Xor(a, b) == Xor(b, a)
    decreases a + b
  {
    if a != 0 || b != 0 {
      XorCommutes(a / 2, b / 2);
    }
  }

  /** The lowest bit of an exclusive or, and the rest. */
  lemma XorHalves(a: nat, b: nat, h: nat)
    requires h == Xor(a / 2, b / 2)
    ensures Xor(a, b) == (a + b) % 2 + 2 * h
  {
  }

  lemma BitAndRest(a: nat, h: nat, x: nat)
    requires x == a % 2 + 2 * h
    ensures x / 2 == h && x % 2 == a % 2
  {
  }

  lemma ParityAssociates(a: nat, b: nat, c: nat, x: nat, y: nat)
    requires x % 2 == (a + b) % 2 && y % 2 == (b + c) % 2
    ensures (x + c) % 2 == (a + y) % 2
  {
  }

  lemma {:induction false} XorAssociates(a: nat, b: nat, c: nat)
    ensures Xor(Xor(a, b), c) == Xor(a, Xor(b, c))
    decreases a + b + c
  {
    if a == 0 && b == 0 && c == 0 {
    } else {
      var ab, bc := Xor(a / 2, b / 2), Xor(b / 2, c / 2);
      var x, y := Xor(a, b), Xor(b, c);
      XorHalves(a, b, ab);
      XorHalves(b, c, bc);
      BitAndRest(a + b, ab, x);
      BitAndRest(b + c, bc, y);
      XorAssociates(a / 2, b / 2, c / 2);
      XorHalves(x, c, Xor(ab, c / 2));
      XorHalves(a, y, Xor(a / 2, bc));
      ParityAssociates(a, b, c, x, y);
    }
  }

  lemma XorInjective(a: nat, b: nat, x: nat)
    requires Xor(a, x) == Xor(b, x)
    ensures a == b
  {
    XorAssociates(a, x, x);
    XorAssociates(b, x, x);
    XorCancels(x);
    XorZero(a);
    XorZero(b);
  }

  lemma XorSwapMiddle(a: nat, b: nat, c: nat, d: nat)
    ensures Xor(Xor(a, b), Xor(c, d)) == Xor(Xor(a, c), Xor(b, d))
  {
    hide Xor;
    XorAssociates(Xor(a, b), c, d);
    XorAssociates(a, b, c);
    XorCommutes(b, c);
    XorAssociates(a, c, b);
    XorAssociates(Xor(a, c), b, d);
  }

  lemma HalfOfXor(a: nat, b: nat)
    ensures Xor(a, b) / 2 == Xor(a / 2, b / 2)
  {
    XorHalves(a, b, Xor(a / 2, b / 2));
    BitAndRest(a + b, Xor(a / 2, b / 2), Xor(a, b));
  }
}
