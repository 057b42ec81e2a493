/** Greedy placement, as a function: buckets in a given order, each at its least displacement that fits beside the
    ones before it. Both placement searches are this function, and fail exactly where it does. */
module Greedy {
  import opened Wrappers
  import opened Numbers

  /** choices[b][d]: the slots the keys of bucket b take at displacement d. */
  type Choices = seq<seq<seq<nat>>>

  /** No slot of the list is taken. */
  ghost predicate Fits(slots: seq<nat>, taken: set<nat>) {
    forall x: nat | x < |slots| :: slots[x] !in taken
  }

  /** What a search accepts; `apart` says whether it also looks for collisions inside the bucket. */
  ghost predicate Good(slots: seq<nat>, taken: set<nat>, apart: bool) {
    Fits(slots, taken) && (apart ==> Distinct(slots))
  }

  /** The least displacement from d on that is good. */
  ghost function LeastFrom(row: seq<seq<nat>>, taken: set<nat>, apart: bool, d: nat): (r: Option<nat>)
    requires d <= |row|
    ensures r.Some? ==> d <= r.value < |row| && Good(row[r.value], taken, apart)
    ensures forall e: nat | d <= e < (if r.Some? then r.value else |row|) :: !Good(row[e], taken, apart)
    decreases |row| - d
  {
    if d == |row| then None
    else if Good(row[d], taken, apart) then Some(d)
    else LeastFrom(row, taken, apart, d + 1)
  }

  lemma LeastIs(row: seq<seq<nat>>, taken: set<nat>, apart: bool, v: nat)
    requires v < |row| && Good(row[v], taken, apart) && forall e: nat | e < v :: !Good(row[e], taken, apart)
    ensures LeastFrom(row, taken, apart, 0) == Some(v)
  {
    hide Good;
  }

  /** Displacements for the first buckets of the order. */
  ghost predicate Placement(choices: Choices, order: seq<nat>, disps: seq<nat>) {
    |disps| <= |order| && forall j: nat | j < |disps| :: order[j] < |choices| && disps[j] < |choices[order[j]]|
  }

  /** The slots these buckets take. */
  ghost function Taken(choices: Choices, order: seq<nat>, disps: seq<nat>): set<nat>
    requires Placement(choices, order, disps)
  {
    if disps == [] then {}
    else
      var k := |disps| - 1;
      Taken(choices, order, disps[..k]) + Elements(choices[order[k]][disps[k]])
  }

  /** The search after its first k buckets; nothing once a bucket has found no displacement. */
  ghost function Run(choices: Choices, order: seq<nat>, apart: bool, k: nat): (r: Option<seq<nat>>)
    requires k <= |order| && forall j: nat | j < |order| :: order[j] < |choices|
    ensures r.Some? ==> |r.value| == k && Placement(choices, order, r.value)
  {
    if k == 0 then Some([])
    else
      match Run(choices, order, apart, k - 1)
      case None => None
      case Some(disps) =>
        match LeastFrom(choices[order[k - 1]], Taken(choices, order, disps), apart, 0)
        case None => None
        case Some(d) => Some(disps + [d])
  }

  /** Bucket number k of the order is the first to find no displacement. */
  ghost predicate StuckAt(choices: Choices, order: seq<nat>, apart: bool, k: nat, disps: seq<nat>)
    requires forall j: nat | j < |order| :: order[j] < |choices|
  {
    && k < |order| && Run(choices, order, apart, k) == Some(disps)
    && forall d: nat | d < |choices[order[k]]| :: !Good(choices[order[k]][d], Taken(choices, order, disps), apart)
  }

  /** One more bucket placed. */
  lemma RunGoesOn(choices: Choices, order: seq<nat>, apart: bool, k: nat, disps: seq<nat>, d: nat)
    requires forall j: nat | j < |order| :: order[j] < |choices|
    requires k < |order| && Run(choices, order, apart, k) == Some(disps) && d < |choices[order[k]]|
    requires Good(choices[order[k]][d], Taken(choices, order, disps), apart)
    requires forall e: nat | e < d :: !Good(choices[order[k]][e], Taken(choices, order, disps), apart)
    ensures Run(choices, order, apart, k + 1) == Some(disps + [d])
    ensures Taken(choices, order, disps + [d]) == Taken(choices, order, disps) + Elements(choices[order[k]][d])
  {
    RunStep(choices, order, apart, k, disps);
    hide Run;
    TakenGrows(choices, order, k, disps, d);
    hide Taken;
    LeastIs(choices[order[k]], Taken(choices, order, disps), apart, d);
  }

  lemma RunStep(choices: Choices, order: seq<nat>, apart: bool, k: nat, disps: seq<nat>)
    requires forall j: nat | j < |order| :: order[j] < |choices|
    requires k < |order| && Run(choices, order, apart, k) == Some(disps)
    ensures var d := LeastFrom(choices[order[k]], Taken(choices, order, disps), apart, 0);
      Run(choices, order, apart, k + 1) == if d.None? then None else Some(disps + [d.value])
  {
    hide LeastFrom, Taken, Good;
  }

  lemma TakenGrows(choices: Choices, order: seq<nat>, k: nat, disps: seq<nat>, d: nat)
    requires Placement(choices, order, disps) && k == |disps| < |order| && order[k] < |choices|
    requires d < |choices[order[k]]|
    ensures Placement(choices, order, disps + [d])
    ensures Taken(choices, order, disps + [d]) == Taken(choices, order, disps) + Elements(choices[order[k]][d])
  {
    assert (disps + [d])[..k] == disps;
  }

  lemma {:induction false} OnceStuckAlwaysStuck(choices: Choices, order: seq<nat>, apart: bool, k: nat, n: nat)
    requires forall j: nat | j < |order| :: order[j] < |choices|
    requires k <= n <= |order| && Run(choices, order, apart, k).None?
    ensures Run(choices, order, apart, n).None?
  {
    if k < n { OnceStuckAlwaysStuck(choices, order, apart, k, n - 1); }
  }

  /** A bucket that finds no displacement ends the search. */
  lemma StuckEndsIt(choices: Choices, order: seq<nat>, apart: bool, k: nat, disps: seq<nat>)
    requires forall j: nat | j < |order| :: order[j] < |choices|
    requires StuckAt(choices, order, apart, k, disps)
    ensures forall n: nat | k < n <= |order| :: Run(choices, order, apart, n).None?
  {
    hide Good, Taken;
    forall n: nat | k < n <= |order| ensures Run(choices, order, apart, n).None? {
      OnceStuckAlwaysStuck(choices, order, apart, k + 1, n);
    }
  }

  /** And a search that fails has such a bucket. */
  lemma {:induction false} FailureIsStuck(choices: Choices, order: seq<nat>, apart: bool, n: nat)
    returns (k: nat, disps: seq<nat>)
    requires forall j: nat | j < |order| :: order[j] < |choices|
    requires n <= |order| && Run(choices, order, apart, n).None?
    ensures k < n && StuckAt(choices, order, apart, k, disps)
  {
    hide Good, Taken;
    if Run(choices, order, apart, n - 1).None? {
      k, disps := FailureIsStuck(choices, order, apart, n - 1);
    } else {
      k, disps := n - 1, Run(choices, order, apart, n - 1).value;
    }
  }

  lemma EmptyIsGood(taken: set<nat>, apart: bool)
    ensures Good([], taken, apart)
  {
  }

  /** Buckets without keys fit anywhere. */
  lemma {:induction false} EmptyBucketsFit(choices: Choices, order: seq<nat>, apart: bool, k: nat, n: nat)
    requires forall j: nat | j < |order| :: order[j] < |choices|
    requires k <= n <= |order| && Run(choices, order, apart, k).Some?
    requires forall j: nat | k <= j < n :: choices[order[j]] != [] && choices[order[j]][0] == []
    ensures Run(choices, order, apart, n).Some?
    ensures Run(choices, order, apart, k).value <= Run(choices, order, apart, n).value
    ensures forall j: nat | k <= j < n :: Run(choices, order, apart, n).value[j] == 0
  {
    hide Run, Taken, LeastFrom, Good;
    if k < n {
      EmptyBucketsFit(choices, order, apart, k, n - 1);
      EmptyIsGood(Taken(choices, order, Run(choices, order, apart, n - 1).value), apart);
      var disps := Run(choices, order, apart, n - 1).value;
      RunGoesOn(choices, order, apart, n - 1, disps, 0);
    }
  }
}
