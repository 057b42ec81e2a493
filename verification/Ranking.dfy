/** The exchange sort with which all generators rank their candidates, symbols and buckets. */
module Ranking {

  /** Every item has its weight beside it. */
  ghost predicate Weighed<T>(items: seq<T>, weights: seq<nat>, weight: T -> nat) {
    |items| == |weights| && forall k: nat | k < |items| :: weights[k] == weight(items[k])
  }

  ghost predicate Descending(weights: seq<nat>) {
    forall x: nat, y: nat | x < y < |weights| :: weights[x] >= weights[y]
  }

  /** Items i and j change places, and so do their weights. */
  method Swap<T>(items: array<T>, weights: array<nat>, i: nat, j: nat)
    requires items as object != weights && i < j < items.Length && j < weights.Length
    modifies items, weights
    ensures items[..] == old(items[..])[i := old(items[j])][j := old(items[i])]
    ensures weights[..] == old(weights[..])[i := old(weights[j])][j := old(weights[i])]
  {
    items[i], items[j] := items[j], items[i];
    weights[i], weights[j] := weights[j], weights[i];
  }

  /** A rearrangement of the original items, still with their weights. */
  ghost predicate Rearranging<T>(original: seq<T>, items: seq<T>, weights: seq<nat>, weight: T -> nat) {
    multiset(items) == multiset(original) && Weighed(items, weights, weight)
  }

  /** What the sort does, as a function: the inner loop from j on, with i fixed. */
  ghost function Compared<T>(items: seq<T>, weight: T -> nat, i: nat, j: nat): (r: seq<T>)
    requires i < j <= |items|
    ensures |r| == |items|
    decreases |items| - j
  {
    if j == |items| then items
    else if weight(items[j]) > weight(items[i]) then Compared(items[i := items[j]][j := items[i]], weight, i, j + 1)
    else Compared(items, weight, i, j + 1)
  }

  /** The outer loop from i on. */
  ghost function SortedFrom<T>(items: seq<T>, weight: T -> nat, i: nat): (r: seq<T>)
    requires i <= |items|
    ensures |r| == |items|
    decreases |items| - i
  {
    if i == |items| then items else SortedFrom(Compared(items, weight, i, i + 1), weight, i + 1)
  }

  ghost function ExchangeSorted<T>(items: seq<T>, weight: T -> nat): (r: seq<T>)
    ensures |r| == |items|
  {
    SortedFrom(items, weight, 0)
  }

  lemma ComparedStep<T>(items: seq<T>, weights: seq<nat>, weight: T -> nat, i: nat, j: nat)
    requires Weighed(items, weights, weight) && i < j < |items|
    ensures Compared(items, weight, i, j) ==
      if weights[j] > weights[i] then Compared(items[i := items[j]][j := items[i]], weight, i, j + 1)
      else Compared(items, weight, i, j + 1)
  {
  }

  /** The first i items are in order, and no later one is above them. */
  ghost predicate SortedUpTo<T>(items: seq<T>, weight: T -> nat, i: nat) {
    forall x: nat, y: nat | x < i && x < y < |items| :: weight(items[x]) >= weight(items[y])
  }

  /** Exchanging two items behind the sorted part. */
  lemma SwapKeeps<T>(items: seq<T>, weight: T -> nat, i: nat, j: nat)
    requires i < j < |items| && SortedUpTo(items, weight, i)
    ensures multiset(items[i := items[j]][j := items[i]]) == multiset(items)
    ensures SortedUpTo(items[i := items[j]][j := items[i]], weight, i)
  {
    var swapped := items[i := items[j]][j := items[i]];
    forall x: nat, y: nat | x < i && x < y < |items| ensures weight(swapped[x]) >= weight(swapped[y]) {
      assert swapped[y] == items[if y == i then j else if y == j then i else y];
    }
  }

  /** Item i is no lighter than those from there up to j. */
  ghost predicate AboveUpTo<T>(items: seq<T>, weight: T -> nat, i: nat, j: nat)
    requires i < j <= |items|
  {
    forall y: nat | i < y < j :: weight(items[i]) >= weight(items[y])
  }

  /** One comparison, with an exchange where it asks for one. */
  lemma OneComparison<T>(items: seq<T>, weight: T -> nat, i: nat, j: nat)
    requires i < j < |items| && AboveUpTo(items, weight, i, j)
    ensures weight(items[j]) <= weight(items[i]) ==> AboveUpTo(items, weight, i, j + 1)
    ensures weight(items[j]) > weight(items[i]) ==>
      AboveUpTo(items[i := items[j]][j := items[i]], weight, i, j + 1)
  {
  }

  lemma AboveAll<T>(items: seq<T>, weight: T -> nat, i: nat)
    requires i < |items| && SortedUpTo(items, weight, i) && AboveUpTo(items, weight, i, |items|)
    ensures SortedUpTo(items, weight, i + 1)
  {
  }

  /** The inner loop brings a heaviest item to place i. */
  lemma {:induction false} ComparedSorts<T>(items: seq<T>, weight: T -> nat, i: nat, j: nat)
    requires i < j <= |items| && SortedUpTo(items, weight, i)
    requires AboveUpTo(items, weight, i, j)
    ensures multiset(Compared(items, weight, i, j)) == multiset(items)
    ensures SortedUpTo(Compared(items, weight, i, j), weight, i + 1)
    decreases |items| - j
  {
    hide SortedUpTo, AboveUpTo;
    if j == |items| {
      AboveAll(items, weight, i);
    } else {
      OneComparison(items, weight, i, j);
      if weight(items[j]) > weight(items[i]) {
        SwapKeeps(items, weight, i, j);
        ComparedSorts(items[i := items[j]][j := items[i]], weight, i, j + 1);
      } else {
        ComparedSorts(items, weight, i, j + 1);
      }
    }
  }

  /** The sort rearranges, and leaves the heaviest first. */
  lemma {:induction false} SortedFromSorts<T>(items: seq<T>, weight: T -> nat, i: nat)
    requires i <= |items| && SortedUpTo(items, weight, i)
    ensures multiset(SortedFrom(items, weight, i)) == multiset(items)
    ensures SortedUpTo(SortedFrom(items, weight, i), weight, |items|)
    decreases |items| - i
  {
    if i < |items| {
      ComparedSorts(items, weight, i, i + 1);
      SortedFromSorts(Compared(items, weight, i, i + 1), weight, i + 1);
    }
  }

  lemma ExchangeSortedSorts<T>(items: seq<T>, weight: T -> nat)
    ensures multiset(ExchangeSorted(items, weight)) == multiset(items)
    ensures SortedUpTo(ExchangeSorted(items, weight), weight, |items|)
  {
    SortedFromSorts(items, weight, 0);
  }

  /** What is in order already stays as it is: items of equal weight are not exchanged. */
  lemma {:induction false} SortedStaysPut<T>(items: seq<T>, weight: T -> nat, i: nat)
    requires i <= |items| && SortedUpTo(items, weight, |items|)
    ensures SortedFrom(items, weight, i) == items
    decreases |items| - i
  {
    if i < |items| {
      ComparedStaysPut(items, weight, i, i + 1);
      SortedStaysPut(items, weight, i + 1);
    }
  }

  lemma {:induction false} ComparedStaysPut<T>(items: seq<T>, weight: T -> nat, i: nat, j: nat)
    requires i < j <= |items| && SortedUpTo(items, weight, |items|)
    ensures Compared(items, weight, i, j) == items
    decreases |items| - j
  {
    if j < |items| { ComparedStaysPut(items, weight, i, j + 1); }
  }

  /** The inner loop: item i is exchanged with every heavier one that comes up. */
  method CompareRest<T>(items: array<T>, weights: array<nat>, i: nat, ghost weight: T -> nat)
    requires items as object != weights && i < items.Length == weights.Length
    requires Weighed(items[..], weights[..], weight)
    modifies items, weights
    ensures Weighed(items[..], weights[..], weight)
    ensures items[..] == Compared(old(items[..]), weight, i, i + 1)
  {
    hide Compared;
    for j := i + 1 to items.Length
      invariant Weighed(items[..], weights[..], weight)
      invariant Compared(items[..], weight, i, j) == Compared(old(items[..]), weight, i, i + 1)
    {
      ComparedStep(items[..], weights[..], weight, i, j);
      if weights[j] > weights[i] {
        Swap(items, weights, i, j);
      }
    }
    NothingToCompare(items[..], weight, i);
  }

  /** Heaviest first. */
  method ExchangeSort<T>(items: array<T>, weights: array<nat>, ghost original: seq<T>, ghost weight: T -> nat)
    requires items as object != weights && items.Length == weights.Length
    requires items[..] == original && Weighed(original, weights[..], weight)
    modifies items, weights
    ensures items[..] == ExchangeSorted(original, weight)
    ensures Rearranging(original, items[..], weights[..], weight) && Descending(weights[..])
  {
    hide Compared, SortedFrom;
    for i := 0 to items.Length
      invariant Weighed(items[..], weights[..], weight)
      invariant SortedFrom(items[..], weight, i) == ExchangeSorted(original, weight)
    {
      OuterStep(items[..], weight, i);
      CompareRest(items, weights, i, weight);
    }
    NothingToSort(items[..], weight);
    ExchangeSortedSorts(original, weight);
  }

  lemma OuterStep<T>(items: seq<T>, weight: T -> nat, i: nat)
    requires i < |items|
    ensures SortedFrom(items, weight, i) == SortedFrom(Compared(items, weight, i, i + 1), weight, i + 1)
  {
  }

  lemma NothingToCompare<T>(items: seq<T>, weight: T -> nat, i: nat)
    requires i < |items|
    ensures Compared(items, weight, i, |items|) == items
  {
  }

  lemma NothingToSort<T>(items: seq<T>, weight: T -> nat)
    ensures SortedFrom(items, weight, |items|) == items
  {
  }
}
