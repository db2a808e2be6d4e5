/**
 Counting occurrences of a text (test/api/testapi.c:75-88): find, step over the occurrence,
 find again. The greedy scan gives the largest possible number of non-overlapping occurrences.
 */
module Occurrences {

  predicate OccursAt(hay: string, needle: string, i: int) {
    0 <= i && i + |needle| <= |hay| && hay[i..i + |needle|] == needle
  }

  /** Occurrences from left to right, none overlapping the next. */
  ghost predicate Packing(hay: string, needle: string, ps: seq<int>) {
    && (forall k :: 0 <= k < |ps| ==> OccursAt(hay, needle, ps[k]))
    && (forall k :: 0 < k < |ps| ==> ps[k - 1] + |needle| <= ps[k])
  }

  /** Where the scan looks for the k-th occurrence from. */
  function From(needle: string, ps: seq<int>, k: nat): int
    requires k <= |ps|
  {
    if k == 0 then 0 else ps[k - 1] + |needle|
  }

  /** Each occurrence is the first one after the previous. */
  ghost predicate Greedy(hay: string, needle: string, ps: seq<int>) {
    forall k, i :: 0 <= k < |ps| && From(needle, ps, k) <= i < ps[k] ==> !OccursAt(hay, needle, i)
  }

  /** strstr from a position on */
  method Strstr(hay: string, needle: string, from: nat) returns (found: bool, at: nat)
    requires from <= |hay|
    ensures found ==>
              && from <= at && OccursAt(hay, needle, at)
              && forall i :: from <= i < at ==> !OccursAt(hay, needle, i)
    ensures !found ==> forall i :: from <= i ==> !OccursAt(hay, needle, i)
  {
    at := from;
    while at + |needle| <= |hay|
      invariant from <= at
      invariant forall i :: from <= i < at ==> !OccursAt(hay, needle, i)
      decreases |hay| - at
    {
      if hay[at..at + |needle|] == needle {
        return true, at;
      }
      at := at + 1;
    }
    return false, at;
  }

  /** The k-th greedy occurrence is not to the right of the k-th occurrence of any packing. */
  lemma {:induction false} StaysAhead(hay: string, needle: string, ps: seq<int>, qs: seq<int>, k: nat)
    requires Packing(hay, needle, ps) && Greedy(hay, needle, ps) && Packing(hay, needle, qs)
    requires forall i :: From(needle, ps, |ps|) <= i ==> !OccursAt(hay, needle, i)
    requires k < |qs|
    ensures k < |ps| && ps[k] <= qs[k]
  {
    if k > 0 {
      StaysAhead(hay, needle, ps, qs, k - 1);
    }
    assert From(needle, ps, k) <= qs[k];
  }

  /** Taking the first occurrence after the last one keeps the scan greedy. */
  lemma ScanStep(hay: string, needle: string, ps: seq<int>, at: int)
    requires Packing(hay, needle, ps) && Greedy(hay, needle, ps)
    requires From(needle, ps, |ps|) <= at && OccursAt(hay, needle, at)
    requires forall i :: From(needle, ps, |ps|) <= i < at ==> !OccursAt(hay, needle, i)
    ensures Packing(hay, needle, ps + [at]) && Greedy(hay, needle, ps + [at])
    ensures From(needle, ps + [at], |ps| + 1) == at + |needle|
  {
    var ps' := ps + [at];
    forall k, i | 0 <= k < |ps'| && From(needle, ps', k) <= i < ps'[k]
      ensures !OccursAt(hay, needle, i)
    {
      assert From(needle, ps', k) == From(needle, ps, k);
    }
  }

  /** test_string_occurrences: the maximum over all packings, and 0 for an empty needle. */
  method CountOccurrences(hay: string, needle: string) returns (count: nat, ghost best: seq<int>)
    ensures needle == [] ==> count == 0
    ensures needle != [] ==> |best| == count && Packing(hay, needle, best)
    ensures needle != [] ==> forall qs :: Packing(hay, needle, qs) ==> |qs| <= count
  {
    count, best := 0, [];
    if needle == [] {
      return;
    }
    var tmp := 0;
    var found, at := Strstr(hay, needle, tmp);
    while found
      invariant tmp <= |hay| && |best| == count && tmp == From(needle, best, count)
      invariant Packing(hay, needle, best) && Greedy(hay, needle, best)
      invariant found ==>
                  && tmp <= at && OccursAt(hay, needle, at)
                  && forall i :: tmp <= i < at ==> !OccursAt(hay, needle, i)
      invariant !found ==> forall i :: tmp <= i ==> !OccursAt(hay, needle, i)
      decreases |hay| - tmp, found
    {
      ScanStep(hay, needle, best, at);
      best := best + [at];
      count := count + 1;
      tmp := at + |needle|;
      found, at := Strstr(hay, needle, tmp);
    }
    forall qs | Packing(hay, needle, qs)
      ensures |qs| <= count
    {
      if |qs| > 0 {
        StaysAhead(hay, needle, best, qs, |qs| - 1);
      }
    }
  }
}
