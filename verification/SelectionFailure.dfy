/** When the position search succeeds, and with how many positions: independent of how it goes about it. */
module SelectionFailure {
  import opened Wrappers
  import opened Words
  import opened Numbers
  import opened Positions

  // ---------------------------------------------------------------- how far the budget goes

  /** The non-empty choices of at most d out of n candidates: what the search has before it at most. */
  ghost function Choices(n: nat, d: nat): nat {
    if n == 0 || d == 0 then 0 else 1 + Choices(n - 1, d - 1) + Choices(n - 1, d)
  }

  /** Those that start with a path's candidates but for the last, which is passed by: the search has been to these
      candidates, but not beyond them. */
  ghost function Beyond(path: seq<nat>, breadth: nat, depth: nat): nat
    requires |path| <= depth && forall k: nat | k < |path| :: path[k] < breadth
  {
    if path == [] then 0
    else
      var k := |path| - 1;
      Beyond(path[..k], breadth, depth) + Choices(breadth - path[k] - 1, depth - k)
  }

  /** The choices the search has yet to look at. */
  ghost function ToCome(path: seq<nat>, breadth: nat, depth: nat): nat
    requires OnPath(path, breadth, depth)
  {
    var k := |path| - 1;
    Beyond(path[..k], breadth, depth) + Choices(breadth - path[k], depth - k)
  }

  lemma ToComeAfterPop(path: seq<nat>, breadth: nat, depth: nat)
    requires OnPath(path, breadth, depth) && |path| > 1 && path[|path| - 1] == breadth
    ensures ToCome(Popped(path, breadth, depth), breadth, depth) == ToCome(path, breadth, depth)
  {
    var k := |path| - 2;
    assert Popped(path, breadth, depth)[..k] == path[..k] == path[..k + 1][..k];
  }

  lemma ToComeAfterSkip(path: seq<nat>, breadth: nat, depth: nat)
    requires OnPath(path, breadth, depth) && path[|path| - 1] < breadth
    ensures OnPath(Advance(path), breadth, depth)
    ensures ToCome(Advance(path), breadth, depth) < ToCome(path, breadth, depth)
  {
    var k := |path| - 1;
    assert Advance(path)[..k] == path[..k];
  }

  lemma ToComeAfterPush(path: seq<nat>, breadth: nat, depth: nat)
    requires OnPath(path, breadth, depth) && path[|path| - 1] < breadth && |path| < depth
    ensures OnPath(path + [path[|path| - 1] + 1], breadth, depth)
    ensures ToCome(path + [path[|path| - 1] + 1], breadth, depth) < ToCome(path, breadth, depth)
  {
    assert (path + [path[|path| - 1] + 1])[..|path|] == path;
  }

  /** A search whose budget is more than the choices to come gives up only if there is no solution. */
  lemma {:induction false} SearchCovers(keys: seq<Bytes>, candidates: seq<nat>, m: nat, breadth: nat, depth: nat,
                                        path: seq<nat>, budget: nat)
    requires m > 0 && breadth <= |candidates| && OnPath(path, breadth, depth)
    requires NothingMissed(keys, candidates, m, breadth, depth, path) && budget > ToCome(path, breadth, depth)
    requires SearchFrom(keys, candidates, m, breadth, depth, path, budget).None?
    ensures NoSmallSet(keys, candidates, m, breadth, depth)
    decreases budget, |path|
  {
    hide NothingMissed, NoSmallSet, Left, ToCome, SearchFrom, Popped, Choices;
    if path[|path| - 1] == breadth {
      if |path| == 1 {
        SearchExhausted(keys, candidates, m, breadth, depth, path);
      } else {
        SearchPops(keys, candidates, m, breadth, depth, path, budget);
        NothingMissedAfterPop(keys, candidates, m, breadth, depth, path);
        ToComeAfterPop(path, breadth, depth);
        PoppedIs(path, breadth, depth);
        SearchCovers(keys, candidates, m, breadth, depth, Popped(path, breadth, depth), budget);
      }
    } else {
      if Left(keys, candidates, m, path) == {} {
        SearchFinds(keys, candidates, m, breadth, depth, path, budget);
        assert false;
      }
      SearchGoesOn(keys, candidates, m, breadth, depth, path, budget);
      if |Left(keys, candidates, m, path)| < |Left(keys, candidates, m, path[..|path| - 1])| && |path| < depth {
        NothingMissedAfterPush(keys, candidates, m, breadth, depth, path);
        ToComeAfterPush(path, breadth, depth);
      } else {
        NothingMissedAfterSkip(keys, candidates, m, breadth, depth, path);
        ToComeAfterSkip(path, breadth, depth);
      }
      SearchCovers(keys, candidates, m, breadth, depth, Following(keys, candidates, m, breadth, depth, path),
                   budget - 1);
    }
  }

  lemma PoppedIs(path: seq<nat>, breadth: nat, depth: nat)
    requires OnPath(path, breadth, depth) && |path| > 1
    ensures Popped(path, breadth, depth) == Advance(path[..|path| - 1])
  {
  }

  /** The budget covers every choice of at most `depth` of the ranked candidates. */
  ghost predicate BudgetCovers(candidates: seq<nat>, maxPositions: nat) {
    Choices(Breadth(|candidates|), Depth(maxPositions)) + 1 < SEARCH_BUDGET
  }

  /** Then the search fails only where no such choice tells the keys apart. */
  lemma CoveredSearch(keys: seq<Bytes>, candidates: seq<nat>, m: nat, maxPositions: nat)
    requires m > 0 && maxPositions > 0 && BudgetCovers(candidates, maxPositions)
    requires Searched(keys, candidates, m, maxPositions, SEARCH_BUDGET).None?
    ensures NoSmallSet(keys, candidates, m, Breadth(|candidates|), Depth(maxPositions))
  {
    hide NothingMissed, NoSmallSet, Left, SearchFrom, Choices, Undistinguished, Distinguishes;
    NothingUndistinguished(keys, [], m);
    StartsAhead(keys, candidates, m, Breadth(|candidates|), Depth(maxPositions));
    SearchCovers(keys, candidates, m, Breadth(|candidates|), Depth(maxPositions), [0], SEARCH_BUDGET - 1);
  }

  lemma {:induction false} ChoicesGrow(n: nat, d: nat, n': nat, d': nat)
    requires n <= n' && d <= d'
    ensures Choices(n, d) <= Choices(n', d')
  {
    if n > 0 && d > 0 {
      ChoicesGrow(n - 1, d - 1, n' - 1, d' - 1);
      ChoicesGrow(n - 1, d, n' - 1, d');
    }
  }

  lemma {:induction false} FewChoices(n: nat)
    ensures Choices(n, 1) == n && 2 * Choices(n, 2) == n * n + n && 6 * Choices(n, 3) == n * (n * n + 5)
  {
    if n > 0 {
      var k := n - 1;
      FewChoices(k);
      ChoicesStep(k);
      hide Choices;
      NextPolynomials(k);
    }
  }

  lemma ChoicesStep(k: nat)
    ensures Choices(k + 1, 1) == 1 + Choices(k, 1)
    ensures Choices(k + 1, 2) == 1 + Choices(k, 1) + Choices(k, 2)
    ensures Choices(k + 1, 3) == 1 + Choices(k, 2) + Choices(k, 3)
  {
  }

  lemma NextPolynomials(k: int)
    ensures (k + 1) * (k + 1) + (k + 1) == k * k + k + 2 * k + 2
    ensures (k + 1) * ((k + 1) * (k + 1) + 5) == k * (k * k + 5) + 3 * (k * k + k) + 6
  {
    var s := k * k;
    assert (k + 1) * (k + 1) == s + 2 * k + 1;
    assert (k + 1) * (s + 2 * k + 6) == k * s + 2 * s + 6 * k + s + 2 * k + 6;
    assert k * (s + 5) == k * s + 5 * k;
  }

  lemma {:induction false} ChoicesBound(n: nat, d: nat)
    ensures Choices(n, d) < Pow2(n)
  {
    if n > 0 && d > 0 {
      ChoicesBound(n - 1, d - 1);
      ChoicesBound(n - 1, d);
    }
  }

  /** The budget covers everything for at most three positions, and for at most twelve candidates. */
  lemma BudgetIsEnough(candidates: seq<nat>, maxPositions: nat)
    requires maxPositions <= 3 || |candidates| <= 12
    ensures BudgetCovers(candidates, maxPositions)
  {
    var b, d := Breadth(|candidates|), Depth(maxPositions);
    if maxPositions <= 3 {
      ChoicesGrow(b, d, 20, 3);
      FewChoices(20);
    } else {
      ChoicesBound(b, d);
      Pow2Of8();
      Pow2Add(8, 4);
      assert Pow2(4) == 16;
      if b < 12 { Pow2Increases(b, 12); }
    }
  }

  // ---------------------------------------------------------------- the fallback

  /** How many candidates the fallback gets to. */
  function Reach(list: seq<nat>, maxPositions: nat): nat {
    if |list| < maxPositions then |list| else maxPositions
  }

  /** The fallback fails exactly where as many of the best candidates as there is room for do not suffice together. */
  lemma {:induction false} FallbackFails(keys: seq<Bytes>, list: seq<nat>, m: nat, maxPositions: nat, ci: nat)
    requires m > 0 && Distinct(list) && ci <= Reach(list, maxPositions) && !Distinguishes(keys, list[..ci], m)
    ensures AddedGreedily(keys, list, m, maxPositions, ci, list[..ci]).None? <==>
      !Distinguishes(keys, list[..Reach(list, maxPositions)], m)
    decreases |list| - ci
  {
    hide Distinguishes;
    if ci < Reach(list, maxPositions) {
      NextDistinct(list, ci);
      assert list[..ci] + [list[ci]] == list[..ci + 1];
      if Distinguishes(keys, list[..ci + 1], m) {
        PrefixTellsLess(keys, list, ci + 1, Reach(list, maxPositions), m);
      } else {
        FallbackFails(keys, list, m, maxPositions, ci + 1);
      }
    }
  }

  lemma PrefixTellsLess(keys: seq<Bytes>, list: seq<nat>, a: nat, b: nat, m: nat)
    requires m > 0 && a <= b <= |list|
    ensures Distinguishes(keys, list[..a], m) ==> Distinguishes(keys, list[..b], m)
  {
    hide Distinguishes;
    forall p | p in list[..a] ensures p in list[..b] {
      var k: nat :| k < a && list[..a][k] == p;
      assert list[..b][k] == p;
    }
    MorePositionsTellMore(keys, list[..a], list[..b], m);
  }

  lemma RankedIsDistinct(keys: seq<Bytes>, m: nat)
    requires m > 0
    ensures Distinct(RankedCandidates(keys, m))
    ensures forall p :: p in RankedCandidates(keys, m) <==> p in Candidates(keys)
  {
    CandidatesAre(keys);
    hide Candidates;
    Rearranged(Candidates(keys), RankedCandidates(keys, m));
  }

  // ---------------------------------------------------------------- the selection

  /** The best candidates that there is room for. */
  ghost function Best(keys: seq<Bytes>, m: nat, maxPositions: nat): seq<nat>
    requires m > 0
  {
    var list := RankedCandidates(keys, m);
    list[..Reach(list, maxPositions)]
  }

  /** The selection fails exactly where all of this does: first and last byte, the bounded search, and the best
      candidates that there is room for, all together. */
  lemma SelectionFails(keys: seq<Bytes>, m: nat, maxPositions: nat)
    requires m > 0 && maxPositions > 0
    ensures Selection(keys, m, maxPositions).None? <==>
      && !Distinguishes(keys, Best(keys, m, maxPositions), m)
      && (maxPositions < 2 || !Distinguishes(keys, [0, LAST_CHAR], m))
      && Searched(keys, RankedCandidates(keys, m), m, maxPositions, SEARCH_BUDGET).None?
  {
    hide Distinguishes, Searched, RankedCandidates, AddedGreedily;
    var list := RankedCandidates(keys, m);
    RankedIsDistinct(keys, m);
    assert list[..0] == [] && list[..1] == [list[0]];
    PrefixTellsLess(keys, list, 0, Reach(list, maxPositions), m);
    PrefixTellsLess(keys, list, 1, Reach(list, maxPositions), m);
    NothingIsEnough(keys, [0, LAST_CHAR], m);
    LengthsAreFound(keys, list, m, maxPositions);
    if !Distinguishes(keys, [], m) {
      FallbackFails(keys, list, m, maxPositions, 0);
    }
  }

  lemma NothingIsEnough(keys: seq<Bytes>, positions: seq<nat>, m: nat)
    requires m > 0
    ensures Distinguishes(keys, [], m) ==> Distinguishes(keys, positions, m)
  {
    MorePositionsTellMore(keys, [], positions, m);
  }

  lemma LengthsAreFound(keys: seq<Bytes>, list: seq<nat>, m: nat, maxPositions: nat)
    requires m > 0 && maxPositions > 0
    ensures Distinguishes(keys, [], m) ==> Searched(keys, list, m, maxPositions, SEARCH_BUDGET).Some?
  {
  }

  /** So where the budget covers all choices, a failure means that no choice of at most eight of the best twenty
      candidates tells the keys apart; and where there is one, at most eight positions are returned. */
  lemma FailureMeansNoSmallSet(keys: seq<Bytes>, m: nat, maxPositions: nat)
    requires m > 0 && maxPositions > 0 && BudgetCovers(RankedCandidates(keys, m), maxPositions)
    ensures var list := RankedCandidates(keys, m);
      || NoSmallSet(keys, list, m, if |list| < 20 then |list| else 20, if maxPositions < 8 then maxPositions else 8)
      || (Selection(keys, m, maxPositions).Some? && |Selection(keys, m, maxPositions).value| <=
            if maxPositions < 8 then maxPositions else 8)
  {
    hide Distinguishes, RankedCandidates, AddedGreedily, NoSmallSet, BudgetCovers, SearchFrom;
    var list := RankedCandidates(keys, m);
    if Searched(keys, list, m, maxPositions, SEARCH_BUDGET).None? {
      CoveredSearch(keys, list, m, maxPositions);
    }
  }

  /** A position tells all keys apart exactly when it gives as many features as there are keys. */
  lemma FullPower(keys: seq<Bytes>, p: nat, m: nat)
    requires m > 0
    ensures Power(keys, m)(p) <= |keys|
    ensures Distinguishes(keys, [p], m) <==> Power(keys, m)(p) == |keys|
  {
    var features := seq(|keys|, i requires 0 <= i < |keys| => Feature(keys, p, m, i));
    forall f ensures f in Elements(features) <==> f in Features(keys, p, m, |keys|) {
      if f in features {
        var i: nat :| i < |features| && features[i] == f;
        assert i in Below(|keys|);
      }
      if f in Features(keys, p, m, |keys|) {
        var i: nat :| i < |keys| && Feature(keys, p, m, i) == f;
        assert features[i] == f;
      }
    }
    assert Elements(features) == Features(keys, p, m, |keys|);
    ElementCount(features);
    if Distinguishes(keys, [p], m) {
      forall i: nat, j: nat | i < j < |keys| ensures features[i] != features[j] {
        assert !Alike(keys, [p], m, i, j);
      }
      DistinctSize(features);
    } else {
      var i: nat, j: nat :| i < j < |keys| && Alike(keys, [p], m, i, j);
      assert [p][0] == p && features[i] == features[j];
    }
  }

  /** If any one candidate tells the keys apart, one position is selected: ranking them finds such a one first. */
  lemma OnePositionIsFound(keys: seq<Bytes>, p: nat, m: nat, maxPositions: nat) returns (q: nat)
    requires m > 0 && maxPositions > 0 && p in Candidates(keys)
    requires Distinguishes(keys, [p], m) && !Distinguishes(keys, [], m)
    ensures Selection(keys, m, maxPositions) == Some([q]) && Distinguishes(keys, [q], m)
  {
    var list := RankedCandidates(keys, m);
    RankedIsDistinct(keys, m);
    hide Distinguishes, Searched, AddedGreedily, Candidates, RankedCandidates;
    q := list[0];
    var k: nat :| k < |list| && list[k] == p;
    assert k > 0 ==> Power(keys, m)(list[0]) >= Power(keys, m)(list[k]);
    FullPower(keys, p, m);
    FullPower(keys, q, m);
  }

  /** First and last byte are found if they are enough, and there is room for two. */
  lemma TwoPositionsAreFound(keys: seq<Bytes>, m: nat, maxPositions: nat)
    requires m > 0 && maxPositions >= 2 && Distinguishes(keys, [0, LAST_CHAR], m)
    ensures Selection(keys, m, maxPositions).Some? && |Selection(keys, m, maxPositions).value| <= 2
  {
    hide Distinguishes, RankedCandidates;
  }
}
