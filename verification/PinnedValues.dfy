/** When the gperf-style solver must find a value: a value that does not work is pinned by a pair of keys of equal
    signature of which one has the symbol and the other has not, and each pair pins one value. */
module PinnedValues {
  import opened Wrappers
  import opened Words
  import opened Numbers
  import opened Positions
  import opened PartitionSolver
  import opened SelectionFailure

  /** Keys of equal signature, the first with the symbol and the second without. */
  ghost function Mates(sig: seq<nat>, hit: seq<bool>): (pairs: set<(nat, nat)>)
    requires |sig| == |hit|
    ensures forall i: nat, j: nat :: (i, j) in pairs <==>
      i < |sig| && j < |sig| && hit[i] && !hit[j] && sig[i] == sig[j]
  {
    set i: nat, j: nat | i in Below(|sig|) && j in Below(|sig|) && hit[i] && !hit[j] && sig[i] == sig[j] :: (i, j)
  }

  /** What must be added to a to bring it to b's slot. */
  function Gap(a: nat, b: nat, m: nat): (v: nat)
    requires m > 0
  {
    (b - a) % m
  }

  lemma OnlyOneValue(a: nat, b: nat, v: nat, m: nat)
    requires v < m && (a + v) % m == b % m
    ensures v == Gap(a, b, m)
  {
    assert v + a == a + v && b - a + a == b;
    ShiftInjective(v, b - a, a, m);
    ModUnique(v, 0, v, m);
  }

  /** The value below m at which a pair collides. */
  ghost function Pinned(phash: seq<nat>, m: nat): ((nat, nat)) --> nat
    requires m > 0
  {
    (pair: (nat, nat)) requires pair.0 < |phash| && pair.1 < |phash| => Gap(phash[pair.0], phash[pair.1], m)
  }

  /** The salt x is taken out of the signatures of the keys that have the symbol. */
  ghost predicate TakenOut(sig: seq<nat>, sig': seq<nat>, hit: seq<bool>, x: nat) {
    |sig| == |sig'| == |hit| && forall k: nat | k < |sig| :: sig'[k] == if hit[k] then Xor(sig[k], x) else sig[k]
  }

  /** Keys that both have the symbol, or both lack it, were in one class before, and move together: if they were
      apart they stay apart. */
  lemma SameSideStaysApart(sig: seq<nat>, sig': seq<nat>, hit: seq<bool>, x: nat, phash: seq<nat>, m: nat, v: nat,
                           i: nat, j: nat)
    requires m > 0 && TakenOut(sig, sig', hit, x) && |phash| == |sig| && Apart(sig, SlotsOf(phash, m))
    requires i < j < |sig| && hit[i] == hit[j] && sig'[i] == sig'[j]
    ensures Residues(phash, hit, v, m)[i] != Residues(phash, hit, v, m)[j]
  {
    var d := if hit[i] then v else 0;
    if hit[i] { XorInjective(sig[i], sig[j], x); }
    hide Xor;
    assert SlotsOf(phash, m)[i] != SlotsOf(phash, m)[j];
    if (phash[i] + d) % m == (phash[j] + d) % m { ShiftInjective(phash[i], phash[j], d, m); }
  }

  /** So a collision is between mates. */
  lemma CollisionIsPinned(sig: seq<nat>, sig': seq<nat>, hit: seq<bool>, x: nat, phash: seq<nat>, m: nat, v: nat)
    returns (pair: (nat, nat))
    requires v < m && TakenOut(sig, sig', hit, x) && |phash| == |sig| && Apart(sig, SlotsOf(phash, m))
    requires !Apart(sig', Residues(phash, hit, v, m))
    ensures pair in Mates(sig', hit) && Pinned(phash, m)(pair) == v
  {
    hide Xor;
    var i, j := FindCollision(sig', Residues(phash, hit, v, m));
    if hit[i] == hit[j] { SameSideStaysApart(sig, sig', hit, x, phash, m, v, i, j); }
    hide TakenOut, Apart, Gap;
    pair := if hit[i] then (i, j) else (j, i);
    OnlyOneValue(phash[pair.0], phash[pair.1], v, m);
  }

  lemma FindCollision(sig: seq<nat>, slots: seq<nat>) returns (i: nat, j: nat)
    requires |sig| == |slots| && !Apart(sig, slots)
    ensures i < j < |sig| && sig[i] == sig[j] && slots[i] == slots[j]
  {
    i, j :| i < j < |sig| && sig[i] == sig[j] && slots[i] == slots[j];
  }

  /** With fewer mates than slots there is a value. */
  lemma FewMatesFindAValue(sig: seq<nat>, sig': seq<nat>, hit: seq<bool>, x: nat, phash: seq<nat>, m: nat)
    requires m > 0 && TakenOut(sig, sig', hit, x) && |phash| == |sig| && Apart(sig, SlotsOf(phash, m))
    requires |Mates(sig', hit)| < m
    ensures !NoValue(sig', phash, hit, m)
  {
    if NoValue(sig', phash, hit, m) {
      forall v | v in Below(m) ensures exists pair :: pair in Mates(sig', hit) && Pinned(phash, m)(pair) == v {
        var pair := CollisionIsPinned(sig, sig', hit, x, phash, m, v);
      }
      ImageSize(Mates(sig', hit), Pinned(phash, m), Below(m));
    }
  }

  // ---------------------------------------------------------------- how many mates there can be

  lemma {:induction false} ProductBound(pairs: set<(nat, nat)>, a: set<nat>, b: set<nat>)
    requires forall pair | pair in pairs :: pair.0 in a && pair.1 in b
    ensures |pairs| <= |a| * |b|
  {
    if a == {} {
      assert pairs == {};
    } else {
      var i :| i in a;
      var row, rest := set pair | pair in pairs && pair.0 == i, set pair | pair in pairs && pair.0 != i;
      assert pairs == row + rest;
      ProductBound(rest, a - {i}, b);
      RowBound(row, i, b);
      OneMoreRow(|a| - 1, |b|);
    }
  }

  lemma RowBound(row: set<(nat, nat)>, i: nat, b: set<nat>)
    requires forall pair | pair in row :: pair.0 == i && pair.1 in b
    ensures |row| <= |b|
  {
    ImageSize(b, (j: nat) => (i, j), row);
  }

  /** As many as keys with the symbol times keys without. */
  lemma MatesBound(sig: seq<nat>, hit: seq<bool>, owners: set<nat>, f: nat, n: nat)
    requires |sig| == |hit| == n && |owners| == f && forall k: nat :: k in owners <==> k < |hit| && hit[k]
    ensures f <= n && |Mates(sig, hit)| <= f * (n - f)
  {
    var others := Below(|sig|) - owners;
    assert owners + others == Below(|sig|);
    assert |owners + others| == |owners| + |others|;
    ProductBound(Mates(sig, hit), owners, others);
  }

  /** A product of two numbers with a given sum. */
  lemma HalfSquare(f: nat, n: nat)
    requires f <= n
    ensures 4 * (f * (n - f)) <= n * n
  {
    var g := n - f;
    assert (f - g) * (f - g) >= 0;
    assert n * n - 4 * (f * g) == (f - g) * (f - g) by {
      assert n == f + g;
      calc {
        (f + g) * (f + g) - 4 * (f * g);
        f * f + 2 * (f * g) + g * g - 4 * (f * g);
        (f - g) * (f - g);
      }
    }
  }

  // ---------------------------------------------------------------- the solver's run

  /** Keys of equal length modulo m have different signatures before any symbol is determined. */
  ghost predicate StartsApart(keys: seq<Bytes>, positions: seq<nat>, m: nat)
    requires m > 0
  {
    Apart(SignaturesAt(keys, positions, 0), SlotsOf(Lengths(keys), m))
  }

  /** The number of keys that have symbol number n. */
  ghost function FrequencyOf(keys: seq<Bytes>, positions: seq<nat>, n: nat): nat
    requires n < |SymbolsOf(keys, positions)|
  {
    Frequency(CharTable(keys, positions))(SymbolsOf(keys, positions)[n])
  }

  /** After every symbol, keys of equal signature are on different slots. */
  lemma ApartBefore(keys: seq<Bytes>, positions: seq<nat>, m: nat, values: seq<nat>)
    requires m > 0 && LeastValues(keys, positions, m, values) && (values == [] ==> StartsApart(keys, positions, m))
    ensures |values| <= |SymbolsOf(keys, positions)|
    ensures Apart(SignaturesAt(keys, positions, |values|), SlotsOf(HashesAfter(keys, positions, values), m))
  {
    hide SignaturesAt;
    if values != [] {
      LastIsLeast(keys, positions, m, values);
      var n := |values| - 1;
      var before, hit := HashesAfter(keys, positions, values[..n]), HitsOf(keys, positions, n);
      assert SlotsOf(Shifted(before, hit, values[n]), m) == Residues(before, hit, values[n], m);
    }
  }

  /** Determining symbol number n takes its salt out. */
  lemma NextSignatures(keys: seq<Bytes>, positions: seq<nat>, n: nat) returns (x: nat)
    requires n < |SymbolsOf(keys, positions)|
    ensures TakenOut(SignaturesAt(keys, positions, n), SignaturesAt(keys, positions, n + 1),
                     HitsOf(keys, positions, n), x)
  {
    var chars, syms, count := CharTable(keys, positions), SymbolsOf(keys, positions), |positions|;
    var s := syms[n];
    x := Salts(count)[s.pos][s.ch];
    NextSymbol(syms, n);
    hide Salts, SymbolsOf, CharTable;
    forall k: nat | k < |keys| ensures SignaturesAt(keys, positions, n + 1)[k] ==
        if HitsOf(keys, positions, n)[k] then Xor(SignaturesAt(keys, positions, n)[k], x)
        else SignaturesAt(keys, positions, n)[k] {
      SignatureAfterDetermined(chars[k], Elements(syms[..n]), Salts(count), s.pos, s.ch, count);
      assert s == Symbol(s.pos, s.ch);
    }
  }

  lemma OwnersAreHit(keys: seq<Bytes>, positions: seq<nat>, n: nat) returns (owners: set<nat>)
    requires n < |SymbolsOf(keys, positions)|
    ensures |owners| == FrequencyOf(keys, positions, n)
    ensures forall k: nat :: k in owners <==> k < |HitsOf(keys, positions, n)| && HitsOf(keys, positions, n)[k]
  {
    owners := Owners(CharTable(keys, positions), SymbolsOf(keys, positions)[n], |keys|);
  }

  lemma StuckMeans(keys: seq<Bytes>, positions: seq<nat>, m: nat, values: seq<nat>)
    requires m > 0 && StuckAfter(keys, positions, m, values)
    ensures LeastValues(keys, positions, m, values) && |values| < |SymbolsOf(keys, positions)|
    ensures NoValue(SignaturesAt(keys, positions, |values| + 1), HashesAfter(keys, positions, values),
                    HitsOf(keys, positions, |values|), m)
  {
    hide LeastValues, NoValue, SymbolsOf, SignaturesAt, HashesAfter, HitsOf;
  }

  /** A symbol that no value suits has a pair of mates for each of the m values. Only the very first symbol may also
      fail because salts collide. */
  lemma StuckSymbolHasMates(keys: seq<Bytes>, positions: seq<nat>, m: nat, values: seq<nat>)
    requires m > 0 && StuckAfter(keys, positions, m, values) && (values == [] ==> StartsApart(keys, positions, m))
    ensures |values| < |SymbolsOf(keys, positions)|
    ensures |Mates(SignaturesAt(keys, positions, |values| + 1), HitsOf(keys, positions, |values|))| >= m
  {
    hide *;
    var n := |values|;
    StuckMeans(keys, positions, m, values);
    ApartBefore(keys, positions, m, values);
    var x := NextSignatures(keys, positions, n);
    var sig, sig', hit := SignaturesAt(keys, positions, n), SignaturesAt(keys, positions, n + 1),
      HitsOf(keys, positions, n);
    if |Mates(sig', hit)| < m {
      FewMatesFindAValue(sig, sig', hit, x, HashesAfter(keys, positions, values), m);
    }
  }

  /** It splits the keys: those that have it times those that have not are at least as many as the slots. */
  lemma StuckSymbolSplitsTheKeys(keys: seq<Bytes>, positions: seq<nat>, m: nat, values: seq<nat>)
    requires m > 0 && StuckAfter(keys, positions, m, values) && (values == [] ==> StartsApart(keys, positions, m))
    ensures |values| < |SymbolsOf(keys, positions)| && FrequencyOf(keys, positions, |values|) <= |keys|
    ensures FrequencyOf(keys, positions, |values|) * (|keys| - FrequencyOf(keys, positions, |values|)) >= m
  {
    hide *;
    StuckSymbolHasMates(keys, positions, m, values);
    var n := |values|;
    var owners := OwnersAreHit(keys, positions, n);
    MatesBound(SignaturesAt(keys, positions, n + 1), HitsOf(keys, positions, n), owners,
               FrequencyOf(keys, positions, n), |keys|);
  }

  /** For fewer than twice the square root of m keys no symbol splits them that evenly: the solver never fails. */
  lemma FewKeysAlwaysGetValues(keys: seq<Bytes>, positions: seq<nat>, m: nat)
    requires m > 0 && |keys| * |keys| < 4 * m && StartsApart(keys, positions, m)
    ensures !ValuesFail(keys, positions, m)
  {
    hide StuckAfter, StartsApart, FrequencyOf;
    if values: seq<nat> :| StuckAfter(keys, positions, m, values) {
      StuckSymbolSplitsTheKeys(keys, positions, m, values);
      HalfSquare(FrequencyOf(keys, positions, |values|), |keys|);
    }
  }

  /** So with few keys tier 1 gives up only for want of positions. */
  lemma FewKeysOnlyLackPositions(keys: seq<Bytes>, m: nat, maxPositions: nat)
    requires m > 0 && maxPositions > 0 && |keys| * |keys| < 4 * m && GperfFails(keys, m, maxPositions)
    requires var selected := Selection(keys, m, maxPositions);
      selected.Some? ==> StartsApart(keys, selected.value, m)
    ensures Selection(keys, m, maxPositions).None?
  {
    hide Selection, StartsApart, ValuesFail;
    var selected := Selection(keys, m, maxPositions);
    if selected.Some? {
      FewKeysAlwaysGetValues(keys, selected.value, m);
    }
  }

  // ---------------------------------------------------------------- one position

  /** With one position a key's signature is its byte's salt. */
  lemma SignatureOfOne(keys: seq<Bytes>, p: nat, k: nat)
    requires k < |keys|
    ensures SignaturesAt(keys, [p], 0)[k] ==
      if CharAt(keys[k], p) < 256 then SaltState(CharAt(keys[k], p) + 1) else 0
  {
    var chars, salt := CharTable(keys, [p])[k], Salts(1);
    NothingDetermined(keys, [p]);
    hide SignaturesAt, SymbolsOf, SaltState, Signature;
    assert chars[0] == CharAt(keys[k], p);
    OneSalt(chars, salt);
    assert salt[0] == SaltRow(0);
  }

  lemma NothingDetermined(keys: seq<Bytes>, positions: seq<nat>)
    ensures SignaturesAt(keys, positions, 0) ==
      Signatures(CharTable(keys, positions), |positions|, {}, Salts(|positions|))
  {
    assert Elements(SymbolsOf(keys, positions)[..0]) == {};
    hide SymbolsOf, Salts, CharTable;
  }

  lemma OneSalt(chars: seq<nat>, salt: seq<Row>)
    requires |chars| == 1 && Tables(salt, 1)
    ensures Signature(chars, {}, salt, 1) == if chars[0] < 256 then salt[0][chars[0]] else 0
  {
    hide Xor;
    var x := if chars[0] < 256 then salt[0][chars[0]] else 0;
    XorCommutes(0, x);
    XorZero(x);
    assert Signature(chars, {}, salt, 0) == 0;
  }

  /** Different bytes, and no byte at all, have different signatures. */
  lemma SaltsTellBytesApart(c: nat, d: nat)
    requires c <= NO_CHAR && d <= NO_CHAR && c != d
    ensures (if c < 256 then SaltState(c + 1) else 0) != if d < 256 then SaltState(d + 1) else 0
  {
    hide SaltState;
    if c < 256 && d < 256 {
      if c < d { SaltStatesDiffer(c + 1, d + 1); } else { SaltStatesDiffer(d + 1, c + 1); }
    } else if c < 256 {
      SaltIsNotZero(c + 1);
    } else {
      SaltIsNotZero(d + 1);
    }
  }

  /** So a single position that tells the keys apart starts them apart: salts never collide there. */
  lemma OnePositionStartsApart(keys: seq<Bytes>, p: nat, m: nat)
    requires m > 0 && Distinguishes(keys, [p], m)
    ensures StartsApart(keys, [p], m)
  {
    var sig := SignaturesAt(keys, [p], 0);
    forall i: nat, j: nat | i < j < |keys| && sig[i] == sig[j]
      ensures SlotsOf(Lengths(keys), m)[i] != SlotsOf(Lengths(keys), m)[j]
    {
      assert !Alike(keys, [p], m, i, j);
      hide Distinguishes, SignaturesAt, SaltState;
      SignatureOfOne(keys, p, i);
      SignatureOfOne(keys, p, j);
      if CharAt(keys[i], p) != CharAt(keys[j], p) {
        SaltsTellBytesApart(CharAt(keys[i], p), CharAt(keys[j], p));
      }
    }
  }

  /** No keys start together where lengths alone tell them apart. */
  lemma NoPositionStartsApart(keys: seq<Bytes>, m: nat)
    requires m > 0 && Distinguishes(keys, [], m)
    ensures StartsApart(keys, [], m)
  {
    forall i: nat, j: nat | i < j < |keys| ensures SlotsOf(Lengths(keys), m)[i] != SlotsOf(Lengths(keys), m)[j] {
      assert !Alike(keys, [], m, i, j);
    }
  }

  /** Where one position is enough, few keys always get their values: nothing is left to chance. */
  lemma OnePositionIsEnough(keys: seq<Bytes>, p: nat, m: nat, maxPositions: nat)
    requires m > 0 && maxPositions > 0 && |keys| * |keys| < 4 * m
    requires p in Candidates(keys) && Distinguishes(keys, [p], m)
    ensures !GperfFails(keys, m, maxPositions)
  {
    hide Distinguishes, Candidates, Selection, StartsApart, ValuesFail;
    if Distinguishes(keys, [], m) {
      NoPositionStartsApart(keys, m);
      SelectedNone(keys, m, maxPositions);
    } else {
      var q := OnePositionIsFound(keys, p, m, maxPositions);
      OnePositionStartsApart(keys, q, m);
    }
    if GperfFails(keys, m, maxPositions) {
      FewKeysOnlyLackPositions(keys, m, maxPositions);
    }
  }

  lemma SelectedNone(keys: seq<Bytes>, m: nat, maxPositions: nat)
    requires m > 0 && maxPositions > 0 && Distinguishes(keys, [], m)
    ensures Selection(keys, m, maxPositions) == Some([])
  {
  }
}
