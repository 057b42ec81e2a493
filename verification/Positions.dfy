/** Byte positions that tell the keys apart: the measure, and the bounded search for a small set. */
module Positions {
  import opened Wrappers
  import opened Words
  import opened Numbers
  import opened Ranking

  /** The position number that stands for "the last byte". */
  const LAST_CHAR: nat := 0xFFFF_FFFF_FFFF_FFFF

  /** What char_at answers where the key has no such byte. */
  const NO_CHAR: nat := 256

  function CharAt(key: Bytes, pos: nat): (c: nat)
    ensures c <= NO_CHAR
  {
    if pos == LAST_CHAR then
      if key == [] then NO_CHAR else key[|key| - 1]
    else if pos >= |key| then NO_CHAR
    else key[pos]
  }

  // ---------------------------------------------------------------- what a set of positions tells apart

  /** Keys i and j have the same length modulo m and the same byte at every position listed. */
  predicate Alike(keys: seq<Bytes>, positions: seq<nat>, m: nat, i: nat, j: nat)
    requires i < |keys| && j < |keys| && m > 0
  {
    && |keys[i]| % m == |keys[j]| % m
    && forall p: nat | p < |positions| :: CharAt(keys[i], positions[p]) == CharAt(keys[j], positions[p])
  }

  /** The pairs of keys the positions do not tell apart. */
  ghost function Undistinguished(keys: seq<Bytes>, positions: seq<nat>, m: nat): (u: set<(nat, nat)>)
    requires m > 0
    ensures forall i: nat, j: nat :: (i, j) in u <==> i < j < |keys| && Alike(keys, positions, m, i, j)
  {
    set i: nat, j: nat | i in Below(|keys|) && j in Below(|keys|) && i < j && Alike(keys, positions, m, i, j) :: (i, j)
  }

  ghost predicate Distinguishes(keys: seq<Bytes>, positions: seq<nat>, m: nat)
    requires m > 0
  {
    forall i: nat, j: nat | i < j < |keys| :: !Alike(keys, positions, m, i, j)
  }

  lemma NothingUndistinguished(keys: seq<Bytes>, positions: seq<nat>, m: nat)
    requires m > 0
    ensures Distinguishes(keys, positions, m) <==> Undistinguished(keys, positions, m) == {}
  {
  }

  /** What is told apart modulo m is told apart modulo every multiple of m: failing at the largest table
      means failing at all smaller ones. */
  lemma LargerTableIsEasier(keys: seq<Bytes>, positions: seq<nat>, m: nat, k: nat)
    requires m > 0 && k > 0
    ensures k * m > 0
    ensures Distinguishes(keys, positions, m) ==> Distinguishes(keys, positions, k * m)
  {
    forall i: nat, j: nat | i < j < |keys| && Alike(keys, positions, k * m, i, j)
      ensures Alike(keys, positions, m, i, j)
    {
      ModDivides(|keys[i]|, |keys[j]|, m, k);
    }
  }

  /** Each key's length modulo m: the slots where no position is looked at. */
  function LengthSlots(keys: seq<Bytes>, m: nat): (slots: seq<nat>)
    requires m > 0
    ensures |slots| == |keys| && forall i: nat | i < |keys| :: slots[i] == |keys[i]| % m < m
  {
    seq(|keys|, i requires 0 <= i < |keys| => |keys[i]| % m)
  }

  lemma LengthsAloneDistinguish(keys: seq<Bytes>, m: nat)
    requires m > 0
    ensures Distinguishes(keys, [], m) <==> Distinct(LengthSlots(keys, m))
  {
    forall i: nat, j: nat | i < j < |keys|
      ensures Alike(keys, [], m, i, j) <==> LengthSlots(keys, m)[i] == LengthSlots(keys, m)[j]
    {
    }
  }

  method PositionsDistinguish(keys: seq<Bytes>, positions: array<nat>, num: nat, m: nat) returns (r: bool)
    requires num <= positions.Length && m > 0
    ensures r <==> Distinguishes(keys, positions[..num], m)
  {
    for i := 0 to |keys|
      invariant forall a: nat, b: nat | a < b < |keys| && a < i :: !Alike(keys, positions[..num], m, a, b)
    {
      for j := i + 1 to |keys|
        invariant forall b: nat | i < b < j :: !Alike(keys, positions[..num], m, i, b)
      {
        var apart := PairApart(keys, positions, num, m, i, j);
        if !apart {
          return false;
        }
      }
    }
    r := true;
  }

  /** The inner loop of both measures: one pair, position by position. */
  method PairApart(keys: seq<Bytes>, positions: array<nat>, num: nat, m: nat, i: nat, j: nat) returns (apart: bool)
    requires num <= positions.Length && m > 0 && i < |keys| && j < |keys|
    ensures apart <==> !Alike(keys, positions[..num], m, i, j)
  {
    if |keys[i]| % m != |keys[j]| % m {
      return true;
    }
    for p := 0 to num
      invariant forall q: nat | q < p :: CharAt(keys[i], positions[..num][q]) == CharAt(keys[j], positions[..num][q])
    {
      if CharAt(keys[i], positions[p]) != CharAt(keys[j], positions[p]) {
        assert positions[..num][p] == positions[p];
        return true;
      }
    }
    apart := false;
  }

  method CountUndistinguished(keys: seq<Bytes>, positions: array<nat>, num: nat, m: nat) returns (count: nat)
    requires num <= positions.Length && m > 0
    ensures count == |Undistinguished(keys, positions[..num], m)|
  {
    count := 0;
    ghost var all := Undistinguished(keys, positions[..num], m);
    hide Alike, Undistinguished, PairsBefore;
    NothingBeforeTheFirst(keys, positions[..num], m);
    for i := 0 to |keys|
      invariant count == |PairsBefore(all, i, i + 1)|
    {
      for j := i + 1 to |keys|
        invariant count == |PairsBefore(all, i, j)|
      {
        var apart := PairApart(keys, positions, num, m, i, j);
        NextPair(all, i, j);
        if !apart {
          count := count + 1;
        }
      }
      NextRow(keys, positions[..num], m, i);
    }
    AllPairs(keys, positions[..num], m);
  }

  /** The pairs of a set that come before (i, j) in reading order. */
  ghost function PairsBefore(all: set<(nat, nat)>, i: nat, j: nat): set<(nat, nat)> {
    set x | x in all && (x.0 < i || (x.0 == i && x.1 < j))
  }

  lemma NextPair(all: set<(nat, nat)>, i: nat, j: nat)
    ensures |PairsBefore(all, i, j + 1)| == |PairsBefore(all, i, j)| + if (i, j) in all then 1 else 0
  {
    assert PairsBefore(all, i, j + 1) == PairsBefore(all, i, j) + if (i, j) in all then {(i, j)} else {};
  }

  lemma NothingBeforeTheFirst(keys: seq<Bytes>, positions: seq<nat>, m: nat)
    requires m > 0
    ensures PairsBefore(Undistinguished(keys, positions, m), 0, 1) == {}
  {
    PairsAreOrdered(keys, positions, m);
  }

  lemma NextRow(keys: seq<Bytes>, positions: seq<nat>, m: nat, i: nat)
    requires m > 0
    ensures PairsBefore(Undistinguished(keys, positions, m), i, |keys|)
         == PairsBefore(Undistinguished(keys, positions, m), i + 1, i + 2)
  {
    PairsAreOrdered(keys, positions, m);
  }

  lemma AllPairs(keys: seq<Bytes>, positions: seq<nat>, m: nat)
    requires m > 0
    ensures PairsBefore(Undistinguished(keys, positions, m), |keys|, |keys| + 1) == Undistinguished(keys, positions, m)
  {
    PairsAreOrdered(keys, positions, m);
  }

  lemma PairsAreOrdered(keys: seq<Bytes>, positions: seq<nat>, m: nat)
    requires m > 0
    ensures forall x | x in Undistinguished(keys, positions, m) :: x.0 < x.1 < |keys|
  {
  }

  // ---------------------------------------------------------------- choices of candidates

  /** The positions that a list of candidate numbers stands for. */
  function Chosen(candidates: seq<nat>, choice: seq<nat>): (positions: seq<nat>)
    requires forall k: nat | k < |choice| :: choice[k] < |candidates|
    ensures |positions| == |choice| && forall k: nat | k < |choice| :: positions[k] == candidates[choice[k]]
  {
    seq(|choice|, k requires 0 <= k < |choice| => candidates[choice[k]])
  }

  /** A set of candidates among the first `breadth`, listed in increasing order. */
  ghost predicate Choice(candidates: seq<nat>, breadth: nat, choice: seq<nat>) {
    && breadth <= |candidates|
    && (forall k: nat | k < |choice| :: choice[k] < breadth)
    && (forall k: nat, l: nat | k < l < |choice| :: choice[k] < choice[l])
  }

  /** The pairs a choice leaves undistinguished. */
  ghost function Left(keys: seq<Bytes>, candidates: seq<nat>, m: nat, choice: seq<nat>): set<(nat, nat)>
    requires m > 0 && forall k: nat | k < |choice| :: choice[k] < |candidates|
  {
    Undistinguished(keys, Chosen(candidates, choice), m)
  }

  /** More positions leave fewer pairs. */
  lemma LeftShrinks(keys: seq<Bytes>, candidates: seq<nat>, m: nat, choice: seq<nat>, i: nat)
    requires m > 0 && i <= |choice| && forall k: nat | k < |choice| :: choice[k] < |candidates|
    ensures Left(keys, candidates, m, choice) <= Left(keys, candidates, m, choice[..i])
  {
  }

  /** Every member of the choice tells apart a pair that the members before it do not. */
  ghost predicate Chain(keys: seq<Bytes>, candidates: seq<nat>, m: nat, choice: seq<nat>)
    requires m > 0 && forall k: nat | k < |choice| :: choice[k] < |candidates|
  {
    forall i: nat | i < |choice| :: EarnsItsPlace(keys, candidates, m, choice, i)
  }

  ghost predicate EarnsItsPlace(keys: seq<Bytes>, candidates: seq<nat>, m: nat, choice: seq<nat>, i: nat)
    requires m > 0 && i < |choice| && forall k: nat | k < |choice| :: choice[k] < |candidates|
  {
    |Left(keys, candidates, m, choice[..i + 1])| < |Left(keys, candidates, m, choice[..i])|
  }

  /** What the search looks for: a choice of at most `depth` candidates that leaves nothing, each member earning
      its place. */
  ghost predicate Solution(keys: seq<Bytes>, candidates: seq<nat>, breadth: nat, depth: nat, m: nat, choice: seq<nat>)
    requires m > 0
  {
    && Choice(candidates, breadth, choice) && |choice| <= depth
    && Left(keys, candidates, m, choice) == {}
    && Chain(keys, candidates, m, choice)
  }

  /** The choice without its member i. */
  function Without(choice: seq<nat>, i: nat): (fewer: seq<nat>)
    requires i < |choice|
    ensures |fewer| == |choice| - 1
    ensures forall k: nat | k < |fewer| :: fewer[k] == if k < i then choice[k] else choice[k + 1]
  {
    choice[..i] + choice[i + 1..]
  }

  /** Dropping a member that tells apart no pair of its own leaves no more pairs than before. */
  lemma UselessMember(keys: seq<Bytes>, candidates: seq<nat>, m: nat, choice: seq<nat>, i: nat)
    requires m > 0 && i < |choice| && forall k: nat | k < |choice| :: choice[k] < |candidates|
    requires !EarnsItsPlace(keys, candidates, m, choice, i)
    ensures Left(keys, candidates, m, Without(choice, i)) <= Left(keys, candidates, m, choice)
  {
    var fewer := Without(choice, i);
    var a, b := Left(keys, candidates, m, choice[..i + 1]), Left(keys, candidates, m, choice[..i]);
    LeftShrinks(keys, candidates, m, choice[..i + 1], i);
    assert choice[..i + 1][..i] == choice[..i];
    SubsetSize(a, b);
    LeftShrinks(keys, candidates, m, fewer, i);
    assert fewer[..i] == choice[..i];
    forall x | x in Left(keys, candidates, m, fewer) ensures x in Left(keys, candidates, m, choice) {
      var ps, fs := Chosen(candidates, choice), Chosen(candidates, fewer);
      assert x in a;
      forall k: nat | k < |ps| ensures CharAt(keys[x.0], ps[k]) == CharAt(keys[x.1], ps[k]) {
        if k <= i {
          assert ps[k] == Chosen(candidates, choice[..i + 1])[k];
        } else {
          assert ps[k] == fs[k - 1];
        }
      }
    }
  }

  /** If some choice of at most `depth` candidates leaves nothing, then so does one in which every member earns
      its place: looking only for those misses nothing. */
  lemma {:induction false} SolutionExists(keys: seq<Bytes>, candidates: seq<nat>, breadth: nat, depth: nat, m: nat,
      choice: seq<nat>)
    returns (solution: seq<nat>)
    requires m > 0 && Choice(candidates, breadth, choice) && |choice| <= depth
    requires Left(keys, candidates, m, choice) == {}
    ensures Solution(keys, candidates, breadth, depth, m, solution)
    decreases |choice|
  {
    if Chain(keys, candidates, m, choice) {
      solution := choice;
    } else {
      var i: nat :| i < |choice| && !EarnsItsPlace(keys, candidates, m, choice, i);
      UselessMember(keys, candidates, m, choice, i);
      solution := SolutionExists(keys, candidates, breadth, depth, m, Without(choice, i));
    }
  }

  // ---------------------------------------------------------------- what the search has not looked at yet

  /** `choice` is still ahead of a search that stands at `path`: it leaves the path at some member for a later
      candidate, or goes through the path's end. */
  ghost predicate Ahead(path: seq<nat>, choice: seq<nat>) {
    exists j: nat :: LeavesAt(path, choice, j)
  }

  ghost predicate LeavesAt(path: seq<nat>, choice: seq<nat>, j: nat) {
    && j < |path| && j < |choice|
    && choice[..j] == path[..j]
    && (if j + 1 == |path| then choice[j] >= path[j] else choice[j] > path[j])
  }

  /** The path with its last candidate replaced by the next one. */
  function Advance(path: seq<nat>): seq<nat>
    requires path != []
  {
    path[|path| - 1 := path[|path| - 1] + 1]
  }

  /** Backtracking from an exhausted level loses no solution. */
  lemma AheadAfterPop(path: seq<nat>, choice: seq<nat>, breadth: nat)
    requires |path| >= 2 && path[|path| - 1] >= breadth && Ahead(path, choice)
    requires forall k: nat | k < |choice| :: choice[k] < breadth
    ensures Ahead(Advance(path[..|path| - 1]), choice)
  {
    var j: nat :| LeavesAt(path, choice, j);
    var popped := Advance(path[..|path| - 1]);
    assert choice[..j] == popped[..j];
    assert LeavesAt(popped, choice, j);
  }

  /** A path that a solution goes through is not useless at its end, and is either complete or too short. */
  lemma PrefixOfSolution(keys: seq<Bytes>, candidates: seq<nat>, breadth: nat, depth: nat, m: nat, path: seq<nat>,
      choice: seq<nat>)
    requires m > 0 && path != [] && path <= choice
    requires Solution(keys, candidates, breadth, depth, m, choice)
    ensures |Left(keys, candidates, m, path)| < |Left(keys, candidates, m, path[..|path| - 1])|
    ensures Left(keys, candidates, m, path) == {} || |path| < |choice| <= depth
  {
    var last := |path| - 1;
    assert choice[..last + 1] == path && choice[..last] == path[..last];
    assert EarnsItsPlace(keys, candidates, m, choice, last);
    assert path == choice || |path| < |choice|;
  }

  /** Going one level deeper loses no solution: a solution through the path has a further, later member. */
  lemma AheadAfterPush(keys: seq<Bytes>, candidates: seq<nat>, breadth: nat, depth: nat, m: nat, path: seq<nat>,
      choice: seq<nat>)
    requires m > 0 && path != [] && Ahead(path, choice)
    requires Solution(keys, candidates, breadth, depth, m, choice)
    requires forall k: nat | k < |path| :: path[k] < |candidates|
    requires Left(keys, candidates, m, path) != {}
    ensures Ahead(path + [path[|path| - 1] + 1], choice)
  {
    var j: nat :| LeavesAt(path, choice, j);
    var deeper := path + [path[|path| - 1] + 1];
    if path <= choice {
      PrefixOfSolution(keys, candidates, breadth, depth, m, path, choice);
      assert choice[|path|] > choice[|path| - 1];
      assert LeavesAt(deeper, choice, |path|);
    } else {
      LeavesStrictly(path, choice, j);
      assert deeper[..j] == path[..j];
      assert LeavesAt(deeper, choice, j);
    }
  }

  /** Off the path, the choice leaves it for a strictly later candidate. */
  lemma LeavesStrictly(path: seq<nat>, choice: seq<nat>, j: nat)
    requires LeavesAt(path, choice, j) && !(path <= choice)
    ensures choice[j] > path[j]
  {
  }

  /** Skipping a candidate that brings nothing, or ends a full path in vain, loses no solution. */
  lemma AheadAfterSkip(keys: seq<Bytes>, candidates: seq<nat>, breadth: nat, depth: nat, m: nat, path: seq<nat>,
      choice: seq<nat>)
    requires m > 0 && path != [] && Ahead(path, choice)
    requires Solution(keys, candidates, breadth, depth, m, choice)
    requires forall k: nat | k < |path| :: path[k] < |candidates|
    requires Left(keys, candidates, m, path) != {}
    requires |path| >= depth || |Left(keys, candidates, m, path)| >= |Left(keys, candidates, m, path[..|path| - 1])|
    ensures Ahead(Advance(path), choice)
  {
    var j: nat :| LeavesAt(path, choice, j);
    hide Left, Distinguishes, EarnsItsPlace, Chain;
    if path <= choice {
      PrefixOfSolution(keys, candidates, breadth, depth, m, path, choice);
    }
    LeavesStrictly(path, choice, j);
    assert Advance(path)[..j] == path[..j];
    assert LeavesAt(Advance(path), choice, j);
  }

  // ---------------------------------------------------------------- the search

  const MAX_BREADTH: nat := 20

  function Depth(maxPositions: nat): nat {
    if maxPositions < 8 then maxPositions else 8
  }

  function Breadth(numCandidates: nat): nat {
    if numCandidates < MAX_BREADTH then numCandidates else MAX_BREADTH
  }

  /** The stack frames of the search are a path of candidate numbers, with the pairs left before each. */
  ghost predicate OnTheStack(keys: seq<Bytes>, candidates: seq<nat>, m: nat, breadth: nat, depth: nat, path: seq<nat>,
                             nextCi: seq<nat>, parentCount: seq<nat>, positions: seq<nat>)
    requires m > 0
  {
    && breadth <= |candidates| && 0 < |path| <= depth <= |positions| && depth < |nextCi| == |parentCount|
    && (forall k: nat | k < |path| :: path[k] == nextCi[k])
    && (forall k: nat | k + 1 < |path| :: path[k] < breadth && positions[k] == candidates[path[k]])
    && path[|path| - 1] <= breadth
    && (forall k: nat | k < |path| :: parentCount[k] == |Left(keys, candidates, m, path[..k])|)
  }

  /** No solution has been passed by. */
  ghost predicate NothingMissed(keys: seq<Bytes>, candidates: seq<nat>, m: nat, breadth: nat, depth: nat,
      path: seq<nat>)
    requires m > 0
  {
    forall choice: seq<nat> | Solution(keys, candidates, breadth, depth, m, choice) :: Ahead(path, choice)
  }

  /** No set of at most `depth` of the first `breadth` candidates tells all keys apart. */
  ghost predicate NoSmallSet(keys: seq<Bytes>, candidates: seq<nat>, m: nat, breadth: nat, depth: nat)
    requires m > 0
  {
    forall choice: seq<nat> | Choice(candidates, breadth, choice) && |choice| <= depth ::
      !Distinguishes(keys, Chosen(candidates, choice), m)
  }

  /** Where the search may stand. */
  ghost predicate OnPath(path: seq<nat>, breadth: nat, depth: nat) {
    && 0 < |path| <= depth && path[|path| - 1] <= breadth
    && forall k: nat | k + 1 < |path| :: path[k] < breadth
  }

  /** Back to the level before, and on to its next candidate. */
  ghost function Popped(path: seq<nat>, breadth: nat, depth: nat): (back: seq<nat>)
    requires OnPath(path, breadth, depth) && |path| > 1
    ensures OnPath(back, breadth, depth) && |back| == |path| - 1
  {
    Advance(path[..|path| - 1])
  }

  /** Deeper, if the last candidate helps and there is room for another, else on to the next candidate. */
  ghost function Following(keys: seq<Bytes>, candidates: seq<nat>, m: nat, breadth: nat, depth: nat, path: seq<nat>)
    : (next: seq<nat>)
    requires m > 0 && breadth <= |candidates| && OnPath(path, breadth, depth) && path[|path| - 1] < breadth
    ensures OnPath(next, breadth, depth)
  {
    if |Left(keys, candidates, m, path)| < |Left(keys, candidates, m, path[..|path| - 1])| && |path| < depth then
      path + [path[|path| - 1] + 1]
    else Advance(path)
  }

  /** The candidates on the path leave no pair. */
  ghost predicate Complete(keys: seq<Bytes>, candidates: seq<nat>, m: nat, path: seq<nat>)
    requires m > 0 && forall k: nat | k < |path| :: path[k] < |candidates|
  {
    Left(keys, candidates, m, path) == {}
  }

  /** What the search comes to when it stands at this path with this budget. */
  ghost function SearchFrom(keys: seq<Bytes>, candidates: seq<nat>, m: nat, breadth: nat, depth: nat, path: seq<nat>,
                            budget: nat): (r: Option<seq<nat>>)
    requires m > 0 && breadth <= |candidates| && OnPath(path, breadth, depth)
    ensures r.Some? ==> 0 < |r.value| <= depth
    decreases budget, |path|
  {
    if budget == 0 then None
    else if path[|path| - 1] == breadth then
      if |path| == 1 then None
      else SearchFrom(keys, candidates, m, breadth, depth, Popped(path, breadth, depth), budget)
    else if Complete(keys, candidates, m, path) then Some(Chosen(candidates, path))
    else
      SearchFrom(keys, candidates, m, breadth, depth, Following(keys, candidates, m, breadth, depth, path), budget - 1)
  }

  /** The whole search. */
  ghost function Searched(keys: seq<Bytes>, candidates: seq<nat>, m: nat, maxPositions: nat, budget: nat)
    : Option<seq<nat>>
    requires m > 0 && maxPositions > 0
  {
    if Distinguishes(keys, [], m) then Some([])
    else
      SearchFrom(keys, candidates, m, Breadth(|candidates|), Depth(maxPositions), [0],
        if budget > 0 then budget - 1 else 0)
  }

  lemma SearchPops(keys: seq<Bytes>, candidates: seq<nat>, m: nat, breadth: nat, depth: nat, path: seq<nat>,
                   budget: nat)
    requires m > 0 && breadth <= |candidates| && OnPath(path, breadth, depth)
    requires budget > 0 && path[|path| - 1] == breadth && |path| > 1
    ensures SearchFrom(keys, candidates, m, breadth, depth, path, budget)
      == SearchFrom(keys, candidates, m, breadth, depth, Popped(path, breadth, depth), budget)
  {
  }

  lemma SearchEnds(keys: seq<Bytes>, candidates: seq<nat>, m: nat, breadth: nat, depth: nat, path: seq<nat>,
                   budget: nat)
    requires m > 0 && breadth <= |candidates| && OnPath(path, breadth, depth)
    requires budget == 0 || (path[|path| - 1] == breadth && |path| == 1)
    ensures SearchFrom(keys, candidates, m, breadth, depth, path, budget) == None
  {
  }

  lemma SearchFinds(keys: seq<Bytes>, candidates: seq<nat>, m: nat, breadth: nat, depth: nat, path: seq<nat>,
                    budget: nat)
    requires m > 0 && breadth <= |candidates| && OnPath(path, breadth, depth)
    requires budget > 0 && path[|path| - 1] < breadth && Left(keys, candidates, m, path) == {}
    ensures SearchFrom(keys, candidates, m, breadth, depth, path, budget) == Some(Chosen(candidates, path))
  {
  }

  lemma SearchGoesOn(keys: seq<Bytes>, candidates: seq<nat>, m: nat, breadth: nat, depth: nat, path: seq<nat>,
                     budget: nat)
    requires m > 0 && breadth <= |candidates| && OnPath(path, breadth, depth)
    requires budget > 0 && path[|path| - 1] < breadth && Left(keys, candidates, m, path) != {}
    ensures SearchFrom(keys, candidates, m, breadth, depth, path, budget) == SearchFrom(keys, candidates, m, breadth,
      depth, Following(keys, candidates, m, breadth, depth, path), budget - 1)
  {
  }

  /** The depth-first search with an explicit stack, a pruning rule and a budget. It finds only sets that tell
      all keys apart; and when it gives up with budget left, there is none of the size it looks for. */
  method BacktrackingSearch(keys: seq<Bytes>, candidates: seq<nat>, positions: array<nat>, budget: nat, m: nat,
      maxPositions: nat)
    returns (found: bool, num: nat, budgetLeft: nat)
    requires m > 0 && 1 <= maxPositions <= positions.Length
    modifies positions
    ensures budgetLeft <= budget
    ensures found ==> num <= Depth(maxPositions) && Distinguishes(keys, positions[..num], m)
    ensures found ==> forall p: nat | p < num :: positions[p] in candidates
    ensures !found && budgetLeft > 0 ==> NoSmallSet(keys, candidates, m, Breadth(|candidates|), Depth(maxPositions))
    ensures Searched(keys, candidates, m, maxPositions, budget) == if found then Some(positions[..num]) else None
  {
    hide Left, Undistinguished, Alike, NothingMissed, NoSmallSet, Distinguishes, Chosen, CharAt, SearchFrom;
    num, budgetLeft := 0, budget;
    var depth, breadth := Depth(maxPositions), Breadth(|candidates|);
    var nextCi, parentCount := seq(depth + 1, _ => 0), seq(depth + 1, _ => 0);
    var sp := 0;
    var initial := CountUndistinguished(keys, positions, 0, m);
    if budgetLeft > 0 { budgetLeft := budgetLeft - 1; }
    assert positions[..0] == Chosen(candidates, []);
    NothingUndistinguished(keys, [], m);
    if initial == 0 {
      return true, 0, budgetLeft;
    }
    nextCi, parentCount := nextCi[0 := 0], parentCount[0 := initial];
    StartsAhead(keys, candidates, m, breadth, depth);
    ghost var path := [0];
    StackAtStart(keys, candidates, m, breadth, depth, nextCi, parentCount, positions[..]);
    while budgetLeft > 0
      invariant budgetLeft <= budget && |path| == sp + 1
      invariant OnTheStack(keys, candidates, m, breadth, depth, path, nextCi, parentCount, positions[..])
      invariant NothingMissed(keys, candidates, m, breadth, depth, path)
      invariant OnPath(path, breadth, depth) && SearchFrom(keys, candidates, m, breadth, depth, path, budgetLeft)
        == Searched(keys, candidates, m, maxPositions, budget)
      decreases budgetLeft, sp
    {
      assert sp < depth; // so the guard against a stack deeper than MAX_DEPTH is dead
      if nextCi[sp] >= breadth {
        if sp == 0 {
          SearchExhausted(keys, candidates, m, breadth, depth, path);
          break;
        }
        SearchPops(keys, candidates, m, breadth, depth, path, budgetLeft);
        NothingMissedAfterPop(keys, candidates, m, breadth, depth, path);
        StackAfterPop(keys, candidates, m, breadth, depth, path, nextCi, parentCount, positions[..]);
        sp := sp - 1;
        nextCi := nextCi[sp := nextCi[sp] + 1];
        path := Advance(path[..|path| - 1]);
      } else {
        var newCount := TryCandidate(keys, candidates, m, breadth, depth, path, nextCi, parentCount, positions, sp);
        if newCount == 0 {
          SearchFinds(keys, candidates, m, breadth, depth, path, budgetLeft);
          return true, sp + 1, budgetLeft - 1;
        }
        SearchGoesOn(keys, candidates, m, breadth, depth, path, budgetLeft);
        budgetLeft := budgetLeft - 1;
        if newCount < parentCount[sp] && sp + 1 < depth {
          NothingMissedAfterPush(keys, candidates, m, breadth, depth, path);
          StackAfterPush(keys, candidates, m, breadth, depth, path, nextCi, parentCount, positions[..], newCount);
          nextCi, parentCount := nextCi[sp + 1 := nextCi[sp] + 1], parentCount[sp + 1 := newCount];
          sp := sp + 1;
          path := path + [path[|path| - 1] + 1];
        } else {
          NothingMissedAfterSkip(keys, candidates, m, breadth, depth, path);
          StackAfterSkip(keys, candidates, m, breadth, depth, path, nextCi, parentCount, positions[..]);
          nextCi := nextCi[sp := nextCi[sp] + 1];
          path := Advance(path);
        }
      }
    }
    SearchEnds(keys, candidates, m, breadth, depth, path, budgetLeft);
    found := false;
  }

  /** Writes down the candidate on top of the stack and counts the pairs left. */
  method TryCandidate(keys: seq<Bytes>, candidates: seq<nat>, m: nat, breadth: nat, depth: nat, ghost path: seq<nat>,
                      nextCi: seq<nat>, ghost parentCount: seq<nat>, positions: array<nat>, sp: nat)
    returns (count: nat)
    requires m > 0 && OnTheStack(keys, candidates, m, breadth, depth, path, nextCi, parentCount, positions[..])
    requires |path| == sp + 1 && nextCi[sp] < breadth
    modifies positions
    ensures OnTheStack(keys, candidates, m, breadth, depth, path, nextCi, parentCount, positions[..])
    ensures forall k: nat | k < |path| :: path[k] < |candidates|
    ensures positions[..sp + 1] == Chosen(candidates, path)
    ensures count == |Left(keys, candidates, m, path)|
    ensures count == 0 <==> Distinguishes(keys, positions[..sp + 1], m)
  {
    hide Undistinguished, Alike, Distinguishes, CharAt;
    StackAfterWrite(keys, candidates, m, breadth, depth, path, nextCi, parentCount, positions[..],
      candidates[nextCi[sp]]);
    ghost var written := positions[..][|path| - 1 := candidates[nextCi[sp]]];
    positions[sp] := candidates[nextCi[sp]];
    assert positions[..] == written;
    count := CountUndistinguished(keys, positions, sp + 1, m);
    assert path[sp] == nextCi[sp];
    PathIsChosen(keys, candidates, m, breadth, depth, path, nextCi, parentCount, written);
    assert positions[..sp + 1] == written[..|path|];
    NothingUndistinguished(keys, positions[..sp + 1], m);
  }

  /** Once the candidate on top of the stack is written down, the positions are those of the path. */
  lemma PathIsChosen(keys: seq<Bytes>, candidates: seq<nat>, m: nat, breadth: nat, depth: nat, path: seq<nat>,
                     nextCi: seq<nat>, parentCount: seq<nat>, positions: seq<nat>)
    requires m > 0 && OnTheStack(keys, candidates, m, breadth, depth, path, nextCi, parentCount, positions)
    requires path[|path| - 1] < breadth && positions[|path| - 1] == candidates[path[|path| - 1]]
    ensures forall k: nat | k < |path| :: path[k] < |candidates|
    ensures positions[..|path|] == Chosen(candidates, path)
  {
  }

  lemma StackAtStart(keys: seq<Bytes>, candidates: seq<nat>, m: nat, breadth: nat, depth: nat,
                     nextCi: seq<nat>, parentCount: seq<nat>, positions: seq<nat>)
    requires m > 0 && breadth <= |candidates| && 0 < depth <= |positions| && depth < |nextCi| == |parentCount|
    requires nextCi[0] == 0 && parentCount[0] == |Undistinguished(keys, [], m)|
    ensures OnTheStack(keys, candidates, m, breadth, depth, [0], nextCi, parentCount, positions)
  {
  }

  lemma StackAfterWrite(keys: seq<Bytes>, candidates: seq<nat>, m: nat, breadth: nat, depth: nat, path: seq<nat>,
                        nextCi: seq<nat>, parentCount: seq<nat>, positions: seq<nat>, position: nat)
    requires m > 0 && OnTheStack(keys, candidates, m, breadth, depth, path, nextCi, parentCount, positions)
    ensures OnTheStack(keys, candidates, m, breadth, depth, path, nextCi, parentCount,
      positions[|path| - 1 := position])
  {
  }

  lemma StackAfterPop(keys: seq<Bytes>, candidates: seq<nat>, m: nat, breadth: nat, depth: nat, path: seq<nat>,
                      nextCi: seq<nat>, parentCount: seq<nat>, positions: seq<nat>)
    requires m > 0 && OnTheStack(keys, candidates, m, breadth, depth, path, nextCi, parentCount, positions)
      && |path| >= 2
    ensures var sp := |path| - 2;
            OnTheStack(keys, candidates, m, breadth, depth, Advance(path[..|path| - 1]),
              nextCi[sp := nextCi[sp] + 1], parentCount, positions)
  {
    var popped := Advance(path[..|path| - 1]);
    assert forall k: nat | k < |popped| :: popped[..k] == path[..k];
  }

  lemma StackAfterPush(keys: seq<Bytes>, candidates: seq<nat>, m: nat, breadth: nat, depth: nat, path: seq<nat>,
                       nextCi: seq<nat>, parentCount: seq<nat>, positions: seq<nat>, count: nat)
    requires m > 0 && OnTheStack(keys, candidates, m, breadth, depth, path, nextCi, parentCount, positions)
    requires |path| < depth && path[|path| - 1] < breadth && positions[|path| - 1] == candidates[path[|path| - 1]]
    requires count == |Left(keys, candidates, m, path)|
    ensures OnTheStack(keys, candidates, m, breadth, depth, path + [path[|path| - 1] + 1],
                       nextCi[|path| := nextCi[|path| - 1] + 1], parentCount[|path| := count], positions)
  {
    hide Left, Undistinguished, Alike;
    PathIsChosen(keys, candidates, m, breadth, depth, path, nextCi, parentCount, positions);
    var deeper := path + [path[|path| - 1] + 1];
    assert deeper[..|path|] == path;
    forall k: nat | k < |path| ensures parentCount[k] == |Left(keys, candidates, m, deeper[..k])| {
      assert deeper[..k] == path[..k];
    }
  }

  lemma StackAfterSkip(keys: seq<Bytes>, candidates: seq<nat>, m: nat, breadth: nat, depth: nat, path: seq<nat>,
                       nextCi: seq<nat>, parentCount: seq<nat>, positions: seq<nat>)
    requires m > 0 && OnTheStack(keys, candidates, m, breadth, depth, path, nextCi, parentCount, positions)
    requires path[|path| - 1] < breadth
    ensures OnTheStack(keys, candidates, m, breadth, depth, Advance(path),
                       nextCi[|path| - 1 := nextCi[|path| - 1] + 1], parentCount, positions)
  {
  }

  lemma NothingMissedAfterPop(keys: seq<Bytes>, candidates: seq<nat>, m: nat, breadth: nat, depth: nat, path: seq<nat>)
    requires m > 0 && NothingMissed(keys, candidates, m, breadth, depth, path)
    requires |path| >= 2 && path[|path| - 1] >= breadth
    ensures NothingMissed(keys, candidates, m, breadth, depth, Advance(path[..|path| - 1]))
  {
    forall choice: seq<nat> | Solution(keys, candidates, breadth, depth, m, choice)
      ensures Ahead(Advance(path[..|path| - 1]), choice)
    {
      AheadAfterPop(path, choice, breadth);
    }
  }

  lemma NothingMissedAfterPush(keys: seq<Bytes>, candidates: seq<nat>, m: nat, breadth: nat, depth: nat, path: seq<nat>)
    requires m > 0 && NothingMissed(keys, candidates, m, breadth, depth, path)
    requires path != [] && (forall k: nat | k < |path| :: path[k] < |candidates|)
      && Left(keys, candidates, m, path) != {}
    ensures NothingMissed(keys, candidates, m, breadth, depth, path + [path[|path| - 1] + 1])
  {
    forall choice: seq<nat> | Solution(keys, candidates, breadth, depth, m, choice)
      ensures Ahead(path + [path[|path| - 1] + 1], choice)
    {
      AheadAfterPush(keys, candidates, breadth, depth, m, path, choice);
    }
  }

  lemma NothingMissedAfterSkip(keys: seq<Bytes>, candidates: seq<nat>, m: nat, breadth: nat, depth: nat, path: seq<nat>)
    requires m > 0 && NothingMissed(keys, candidates, m, breadth, depth, path)
    requires path != [] && (forall k: nat | k < |path| :: path[k] < |candidates|)
      && Left(keys, candidates, m, path) != {}
    requires |path| >= depth || |Left(keys, candidates, m, path)| >= |Left(keys, candidates, m, path[..|path| - 1])|
    ensures NothingMissed(keys, candidates, m, breadth, depth, Advance(path))
  {
    forall choice: seq<nat> | Solution(keys, candidates, breadth, depth, m, choice)
      ensures Ahead(Advance(path), choice)
    {
      AheadAfterSkip(keys, candidates, breadth, depth, m, path, choice);
    }
  }

  /** At the root with no candidate left, no solution is ahead: there is none at all. */
  lemma SearchExhausted(keys: seq<Bytes>, candidates: seq<nat>, m: nat, breadth: nat, depth: nat, path: seq<nat>)
    requires m > 0 && NothingMissed(keys, candidates, m, breadth, depth, path)
    requires |path| == 1 && path[0] >= breadth
    ensures NoSmallSet(keys, candidates, m, breadth, depth)
  {
    forall choice: seq<nat> | Choice(candidates, breadth, choice) && |choice| <= depth
      ensures !Distinguishes(keys, Chosen(candidates, choice), m)
    {
      NothingUndistinguished(keys, Chosen(candidates, choice), m);
      if Left(keys, candidates, m, choice) == {} {
        var solution := SolutionExists(keys, candidates, breadth, depth, m, choice);
        NothingAheadOfTheEnd(path, solution, breadth);
      }
    }
  }

  lemma NothingAheadOfTheEnd(path: seq<nat>, choice: seq<nat>, breadth: nat)
    requires |path| == 1 && path[0] >= breadth && forall k: nat | k < |choice| :: choice[k] < breadth
    ensures !Ahead(path, choice)
  {
  }

  lemma StartsAhead(keys: seq<Bytes>, candidates: seq<nat>, m: nat, breadth: nat, depth: nat)
    requires m > 0 && Undistinguished(keys, [], m) != {}
    ensures NothingMissed(keys, candidates, m, breadth, depth, [0])
  {
    forall choice: seq<nat> | Solution(keys, candidates, breadth, depth, m, choice) ensures Ahead([0], choice) {
      assert Chosen(candidates, []) == [];
      assert choice != [];
      assert LeavesAt([0], choice, 0);
    }
  }

  // ---------------------------------------------------------------- choosing positions

  const MAX_CANDIDATES: nat := 256

  /** The length modulo m and the byte at one position. */
  function Feature(keys: seq<Bytes>, pos: nat, m: nat, i: nat): (nat, nat)
    requires i < |keys| && m > 0
  {
    (|keys[i]| % m, CharAt(keys[i], pos))
  }

  /** The shortest key's length; it is zero exactly when the empty string is a key. */
  method MinLength(keys: seq<Bytes>) returns (mn: nat)
    requires keys != []
    ensures (forall i: nat | i < |keys| :: mn <= |keys[i]|) && exists i: nat :: i < |keys| && |keys[i]| == mn
    ensures mn == 0 <==> [] in keys
  {
    mn := |keys[0]|;
    for i := 1 to |keys|
      invariant forall j: nat | j < i :: mn <= |keys[j]|
      invariant exists j: nat :: j < i && |keys[j]| == mn
    {
      if |keys[i]| < mn { mn := |keys[i]|; }
    }
    if mn == 0 {
      var j: nat :| j < |keys| && |keys[j]| == mn;
      assert keys[j] == [];
    }
  }

  /** The features one position gives. */
  ghost function Features(keys: seq<Bytes>, pos: nat, m: nat, n: nat): set<(nat, nat)>
    requires m > 0 && n <= |keys|
  {
    set i: nat | i in Below(n) :: Feature(keys, pos, m, i)
  }

  /** How many keys a position tells apart, by this measure. */
  ghost function Power(keys: seq<Bytes>, m: nat): nat -> nat
    requires m > 0
  {
    pos => |Features(keys, pos, m, |keys|)|
  }

  /** Is the feature of key i one that an earlier key has? */
  method SeenBefore(keys: seq<Bytes>, pos: nat, m: nat, i: nat) returns (dup: bool)
    requires m > 0 && i < |keys|
    ensures dup <==> Feature(keys, pos, m, i) in Features(keys, pos, m, i)
  {
    for j := 0 to i
      invariant forall k: nat | k < j :: Feature(keys, pos, m, k) != Feature(keys, pos, m, i)
    {
      if Feature(keys, pos, m, i) == Feature(keys, pos, m, j) {
        assert j in Below(i);
        return true;
      }
    }
    dup := false;
  }

  lemma OneMoreFeature(keys: seq<Bytes>, pos: nat, m: nat, i: nat)
    requires m > 0 && i < |keys|
    ensures |Features(keys, pos, m, i + 1)| == |Features(keys, pos, m, i)| +
      if Feature(keys, pos, m, i) in Features(keys, pos, m, i) then 0 else 1
  {
    assert Below(i + 1) == Below(i) + {i};
    assert Features(keys, pos, m, i + 1) == Features(keys, pos, m, i) + {Feature(keys, pos, m, i)};
    hide Feature, Features;
  }

  method DiscriminatingPower(keys: seq<Bytes>, pos: nat, m: nat) returns (count: nat)
    requires m > 0
    ensures count == Power(keys, m)(pos)
  {
    hide *;
    count := 0;
    NoFeature(keys, pos, m);
    for i := 0 to |keys|
      invariant count == |Features(keys, pos, m, i)|
    {
      var dup := SeenBefore(keys, pos, m, i);
      OneMoreFeature(keys, pos, m, i);
      if !dup {
        count := count + 1;
      }
    }
  }

  lemma NoFeature(keys: seq<Bytes>, pos: nat, m: nat)
    requires m > 0
    ensures Features(keys, pos, m, 0) == {} && Power(keys, m)(pos) == |Features(keys, pos, m, |keys|)|
  {
  }

  /** A position the byte tables of the container can hold: below 255, or the last byte. */
  predicate Storable(pos: nat) {
    pos < 255 || pos == LAST_CHAR
  }

  /** The longest key's length. */
  function MaxLength(keys: seq<Bytes>): (m: nat)
    ensures forall i: nat | i < |keys| :: |keys[i]| <= m
    ensures keys != [] ==> exists i: nat :: i < |keys| && |keys[i]| == m
  {
    if keys == [] then 0
    else
      var rest := MaxLength(keys[..|keys| - 1]);
      var last := |keys[|keys| - 1]|;
      assert forall i: nat | i < |keys| - 1 :: keys[i] == keys[..|keys| - 1][i];
      if last > rest || |keys| == 1 then last else rest
  }

  /** The candidates: every position some key has, as far as 255 of them go, and the last byte. */
  function Candidates(keys: seq<Bytes>): (list: seq<nat>)
    ensures 1 <= |list| <= MAX_CANDIDATES && forall c: nat | c < |list| :: Storable(list[c])
  {
    Ascending(if MaxLength(keys) < MAX_CANDIDATES - 1 then MaxLength(keys) else MAX_CANDIDATES - 1) + [LAST_CHAR]
  }

  function Ascending(n: nat): (list: seq<nat>)
    ensures |list| == n && forall c: nat | c < n :: list[c] == c
  {
    seq(n, c requires 0 <= c => c)
  }

  lemma CandidatesAre(keys: seq<Bytes>)
    ensures forall p: nat :: p in Candidates(keys) <==> p == LAST_CHAR || (p < MaxLength(keys) && p < 255)
    ensures Distinct(Candidates(keys))
  {
    var n := if MaxLength(keys) < MAX_CANDIDATES - 1 then MaxLength(keys) else MAX_CANDIDATES - 1;
    forall p: nat | p < n ensures p in Ascending(n) {
      assert Ascending(n)[p] == p;
    }
  }

  /** The candidates, most telling first. */
  ghost predicate Ranked(keys: seq<Bytes>, m: nat, list: seq<nat>)
    requires m > 0
  {
    multiset(list) == multiset(Candidates(keys))
    && forall x: nat, y: nat | x < y < |list| :: Power(keys, m)(list[x]) >= Power(keys, m)(list[y])
  }

  /** The candidates in the order in which the sort leaves them. */
  ghost function RankedCandidates(keys: seq<Bytes>, m: nat): (list: seq<nat>)
    requires m > 0
    ensures Ranked(keys, m, list) && list != []
  {
    ExchangeSortedSorts(Candidates(keys), Power(keys, m));
    ExchangeSorted(Candidates(keys), Power(keys, m))
  }

  method RankCandidates(keys: seq<Bytes>, m: nat) returns (list: seq<nat>)
    requires m > 0
    ensures list == RankedCandidates(keys, m)
  {
    var candidates: seq<nat>, powers: seq<nat> := [], [];
    var p := 0;
    while p < MaxLength(keys) && |candidates| < MAX_CANDIDATES - 1
      invariant p == |candidates| == |powers| <= MAX_CANDIDATES - 1 && p <= MaxLength(keys)
      invariant candidates == Ascending(p) && Weighed(candidates, powers, Power(keys, m))
    {
      var power := DiscriminatingPower(keys, p, m);
      candidates, powers := candidates + [p], powers + [power];
      p := p + 1;
    }
    var power := DiscriminatingPower(keys, LAST_CHAR, m);
    candidates, powers := candidates + [LAST_CHAR], powers + [power];
    assert candidates == Candidates(keys);
    var items := new nat[|candidates|](c requires 0 <= c < |candidates| => candidates[c]);
    var weights := new nat[|powers|](c requires 0 <= c < |powers| => powers[c]);
    assert items[..] == candidates && weights[..] == powers;
    ExchangeSort(items, weights, candidates, Power(keys, m));
    list := items[..];
  }

  /** Every ranked candidate fits the container's tables. */
  lemma RankedAreStorable(keys: seq<Bytes>, m: nat, list: seq<nat>)
    requires m > 0 && Ranked(keys, m, list)
    ensures list != [] && (forall c :: c in list <==> c in Candidates(keys))
    ensures forall c: nat | c < |list| :: Storable(list[c])
    ensures |list| == |Candidates(keys)|
  {
    assert |list| == |multiset(list)| == |multiset(Candidates(keys))| == |Candidates(keys)|;
    forall c ensures c in list <==> c in Candidates(keys) {
      assert c in multiset(list) <==> c in multiset(Candidates(keys));
    }
    forall c: nat | c < |list| ensures Storable(list[c]) {
      assert list[c] in Candidates(keys);
    }
  }

  /** The fallback from candidate ci on: one more position at a time, until all keys are told apart. */
  ghost function AddedGreedily(keys: seq<Bytes>, list: seq<nat>, m: nat, maxPositions: nat, ci: nat, chosen: seq<nat>)
    : Option<seq<nat>>
    requires m > 0 && ci <= |list|
    decreases |list| - ci
  {
    if ci == |list| || |chosen| >= maxPositions then None
    else if list[ci] in chosen then AddedGreedily(keys, list, m, maxPositions, ci + 1, chosen)
    else if Distinguishes(keys, chosen + [list[ci]], m) then Some(chosen + [list[ci]])
    else AddedGreedily(keys, list, m, maxPositions, ci + 1, chosen + [list[ci]])
  }

  const SEARCH_BUDGET: nat := 5000

  /** What phase 1 comes to with these candidates when the lengths do not suffice. */
  ghost function SelectionFrom(keys: seq<Bytes>, list: seq<nat>, m: nat, maxPositions: nat): Option<seq<nat>>
    requires m > 0 && maxPositions > 0 && list != []
  {
    if Distinguishes(keys, [list[0]], m) then Some([list[0]])
    else if maxPositions >= 2 && Distinguishes(keys, [0, LAST_CHAR], m) then Some([0, LAST_CHAR])
    else
      var found := Searched(keys, list, m, maxPositions, SEARCH_BUDGET);
      if found.Some? then found else AddedGreedily(keys, list, m, maxPositions, 0, [])
  }

  /** The positions phase 1 comes to. */
  ghost function Selection(keys: seq<Bytes>, m: nat, maxPositions: nat): Option<seq<nat>>
    requires m > 0 && maxPositions > 0
  {
    if Distinguishes(keys, [], m) then Some([])
    else SelectionFrom(keys, RankedCandidates(keys, m), m, maxPositions)
  }

  /** The number of positions written is the answer. */
  ghost function Reported(positions: seq<nat>, r: Option<nat>): Option<seq<nat>>
    requires r.Some? ==> r.value <= |positions|
  {
    if r.Some? then Some(positions[..r.value]) else None
  }

  /** Phase 1 of the solver: the empty set, the best single position, first and last byte, the bounded search,
      then greedily. Whatever it returns tells all keys apart and fits the container's tables; and where all
      candidates fit among the positions, it fails only for keys that cannot be told apart. So different keys
      shorter than the number of positions always get theirs. */
  method SelectPositions(keys: seq<Bytes>, positions: array<nat>, m: nat, maxPositions: nat) returns (r: Option<nat>)
    requires m > 0 && 1 <= maxPositions == positions.Length
    modifies positions
    ensures r.Some? ==> r.value <= maxPositions && Distinguishes(keys, positions[..r.value], m)
    ensures Reported(positions[..], r) == Selection(keys, m, maxPositions)
    ensures r.Some? ==> forall p: nat | p < r.value :: Storable(positions[p])
    ensures r != Some(0) <==> !Distinguishes(keys, [], m)
    ensures r.None? && |Candidates(keys)| <= maxPositions ==> !Distinguishes(keys, Candidates(keys), m)
    ensures Distinct(keys) && MaxLength(keys) < maxPositions < MAX_CANDIDATES ==> r.Some?
  {
    if Distinct(keys) && MaxLength(keys) < maxPositions < MAX_CANDIDATES {
      ShortKeysAlwaysHavePositions(keys, m, maxPositions);
    }
    if Selection(keys, m, maxPositions).None? && |Candidates(keys)| <= maxPositions {
      SelectionTriesAll(keys, m, maxPositions);
    }
    hide Distinguishes, Ranked, Candidates, RankedCandidates, SelectionFrom, Distinct;
    assert positions[..0] == [];
    var done := PositionsDistinguish(keys, positions, 0, m);
    if done { return Some(0); }
    var list := RankCandidates(keys, m);
    RankedAreStorable(keys, m, list);
    r := SelectFrom(keys, list, positions, m, maxPositions);
  }

  /** The four ways to find positions once the lengths alone have failed. */
  method SelectFrom(keys: seq<Bytes>, list: seq<nat>, positions: array<nat>, m: nat, maxPositions: nat)
    returns (r: Option<nat>)
    requires m > 0 && 1 <= maxPositions == positions.Length && !Distinguishes(keys, [], m)
    requires list != [] && forall c: nat | c < |list| :: Storable(list[c])
    modifies positions
    ensures r.Some? ==> 0 < r.value <= maxPositions && Distinguishes(keys, positions[..r.value], m)
    ensures Reported(positions[..], r) == SelectionFrom(keys, list, m, maxPositions)
    ensures r.Some? ==> forall p: nat | p < r.value :: Storable(positions[p])
  {
    hide Distinguishes, Searched, AddedGreedily;
    positions[0] := list[0];
    assert positions[..1] == [list[0]];
    var done := PositionsDistinguish(keys, positions, 1, m);
    if done { return Some(1); }
    if maxPositions >= 2 {
      positions[0], positions[1] := 0, LAST_CHAR;
      assert positions[..2] == [0, LAST_CHAR];
      done := PositionsDistinguish(keys, positions, 2, m);
      if done { return Some(2); }
    }
    var found, num, _ := BacktrackingSearch(keys, list, positions, SEARCH_BUDGET, m, maxPositions);
    if found {
      assert forall p: nat | p < num :: Storable(positions[p]);
      NotWithoutPositions(keys, positions[..num], m);
      assert positions[..][..num] == positions[..num];
      return Some(num);
    }
    r := AddGreedily(keys, list, positions, m);
  }

  lemma NotWithoutPositions(keys: seq<Bytes>, positions: seq<nat>, m: nat)
    requires m > 0 && !Distinguishes(keys, [], m) && Distinguishes(keys, positions, m)
    ensures positions != []
  {
  }

  /** Adding positions never hurts. */
  lemma MorePositionsTellMore(keys: seq<Bytes>, fewer: seq<nat>, more: seq<nat>, m: nat)
    requires m > 0 && forall p :: p in fewer ==> p in more
    ensures Distinguishes(keys, fewer, m) ==> Distinguishes(keys, more, m)
  {
    forall i: nat, j: nat | i < j < |keys| && Alike(keys, more, m, i, j) ensures Alike(keys, fewer, m, i, j) {
      forall p: nat | p < |fewer| ensures CharAt(keys[i], fewer[p]) == CharAt(keys[j], fewer[p]) {
        assert fewer[p] in more;
      }
    }
  }

  /** The fallback: one candidate after the other until all keys are told apart. */
  method AddGreedily(keys: seq<Bytes>, list: seq<nat>, positions: array<nat>, m: nat) returns (r: Option<nat>)
    requires m > 0 && 1 <= positions.Length
    requires list != [] && forall c: nat | c < |list| :: Storable(list[c])
    modifies positions
    ensures r.Some? ==> 0 < r.value <= positions.Length && Distinguishes(keys, positions[..r.value], m)
    ensures Reported(positions[..], r) == AddedGreedily(keys, list, m, positions.Length, 0, [])
    ensures r.Some? ==> forall p: nat | p < r.value :: Storable(positions[p])
  {
    hide Distinguishes;
    var num, ci := 0, 0;
    while ci < |list| && num < positions.Length
      invariant num <= ci <= |list| && num <= positions.Length
      invariant forall p: nat | p < num :: Storable(positions[p])
      invariant AddedGreedily(keys, list, m, positions.Length, ci, positions[..num])
        == AddedGreedily(keys, list, m, positions.Length, 0, [])
    {
      if list[ci] !in positions[..num] {
        ghost var before := positions[..num];
        positions[num] := list[ci];
        num := num + 1;
        assert positions[..num] == before + [list[ci]];
        var done := PositionsDistinguish(keys, positions, num, m);
        if done { return Some(num); }
      }
      ci := ci + 1;
    }
    r := None;
  }

  /** With room for all candidates the fallback fails only where all of them together do. */
  lemma {:induction false} FallbackTriesAll(keys: seq<Bytes>, list: seq<nat>, m: nat, maxPositions: nat, ci: nat,
                                            chosen: seq<nat>)
    requires m > 0 && ci <= |list| <= maxPositions && |chosen| <= ci && !Distinguishes(keys, chosen, m)
    requires (forall p :: p in list[..ci] ==> p in chosen) && (ci == |list| || |chosen| < maxPositions)
    requires AddedGreedily(keys, list, m, maxPositions, ci, chosen).None?
    ensures !Distinguishes(keys, list, m)
    decreases |list| - ci
  {
    hide Distinguishes;
    if ci == |list| {
      assert list[..ci] == list;
      MorePositionsTellMore(keys, list, chosen, m);
    } else {
      assert list[..ci + 1] == list[..ci] + [list[ci]];
      FallbackTriesAll(keys, list, m, maxPositions, ci + 1,
                       if list[ci] in chosen then chosen else chosen + [list[ci]]);
    }
  }

  /** Where all candidates fit among the positions, the selection fails only for keys they do not tell apart. */
  lemma SelectionTriesAll(keys: seq<Bytes>, m: nat, maxPositions: nat)
    requires m > 0 && 0 < |Candidates(keys)| <= maxPositions && Selection(keys, m, maxPositions).None?
    ensures !Distinguishes(keys, Candidates(keys), m)
  {
    hide Distinguishes, Candidates, Searched, Ranked, RankedCandidates;
    var list := RankedCandidates(keys, m);
    RankedAreStorable(keys, m, list);
    FallbackTriesAll(keys, list, m, maxPositions, 0, []);
    MorePositionsTellMore(keys, Candidates(keys), list, m);
  }

  /** Different keys differ in length or at some position that one of them has: if all positions are candidates,
      the candidates tell different keys apart. */
  lemma CandidatesTellAllApart(keys: seq<Bytes>, m: nat)
    requires m > 0 && Distinct(keys) && MaxLength(keys) < MAX_CANDIDATES
    ensures Distinguishes(keys, Candidates(keys), m)
  {
    forall i: nat, j: nat | i < j < |keys| ensures !Alike(keys, Candidates(keys), m, i, j) {
      if Alike(keys, Candidates(keys), m, i, j) {
        AlikeEverywhere(keys, m, i, j);
      }
    }
  }

  lemma AlikeAt(keys: seq<Bytes>, m: nat, i: nat, j: nat, p: nat)
    requires m > 0 && i < |keys| && j < |keys| && p < MaxLength(keys) < MAX_CANDIDATES
    requires Alike(keys, Candidates(keys), m, i, j)
    ensures CharAt(keys[i], p) == CharAt(keys[j], p)
  {
    assert Candidates(keys)[p] == p;
  }

  lemma AlikeEverywhere(keys: seq<Bytes>, m: nat, i: nat, j: nat)
    requires m > 0 && i < |keys| && j < |keys| && MaxLength(keys) < MAX_CANDIDATES
    requires Alike(keys, Candidates(keys), m, i, j)
    ensures keys[i] == keys[j]
  {
    hide Candidates, Alike, CharAt;
    forall p: nat | p < MaxLength(keys) ensures CharAt(keys[i], p) == CharAt(keys[j], p) {
      AlikeAt(keys, m, i, j, p);
    }
    SameBytes(keys[i], keys[j], MaxLength(keys));
  }

  lemma SameBytes(a: Bytes, b: Bytes, n: nat)
    requires |a| <= n && |b| <= n < LAST_CHAR && forall p: nat | p < n :: CharAt(a, p) == CharAt(b, p)
    ensures a == b
  {
    assert |a| < n ==> CharAt(a, |a|) == CharAt(b, |a|);
    assert |b| < n ==> CharAt(a, |b|) == CharAt(b, |b|);
    forall p: nat | p < |a| ensures a[p] == b[p] {
      assert CharAt(a, p) == CharAt(b, p);
    }
  }

  /** For different keys shorter than the number of positions a hash may read, the selection never fails. */
  lemma ShortKeysAlwaysHavePositions(keys: seq<Bytes>, m: nat, maxPositions: nat)
    requires m > 0 && Distinct(keys) && MaxLength(keys) < maxPositions && MaxLength(keys) < MAX_CANDIDATES
    ensures Selection(keys, m, maxPositions).Some?
  {
    CandidatesTellAllApart(keys, m);
    assert |Candidates(keys)| <= maxPositions;
    hide Candidates, Selection;
    if Selection(keys, m, maxPositions).None? { SelectionTriesAll(keys, m, maxPositions); }
  }
}
