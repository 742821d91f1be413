/**
 * The placement policies of find_free_block (memory.c): which free block a request of
 * `n` bytes is placed in, under first-fit, best-fit and worst-fit.
 */
module Fit {
  import opened Blocks

  /** alloc_algo_t (memory.h). */
  datatype Algo = FirstFit | BestFit | WorstFit

  /** A block can hold the request: it is free and large enough. */
  predicate Fits(b: Block, n: nat)
  {
    b.isFree && b.Size() >= n
  }

  /** Whether a later fitting block of size `size` replaces the pick so far, of size
      `current`. The comparisons are strict, so ties stay with the earlier block, and
      first-fit never replaces its first pick. */
  predicate Displaces(algo: Algo, size: nat, current: nat)
  {
    match algo
    case FirstFit => false
    case BestFit => size < current
    case WorstFit => size > current
  }

  /** What each policy promises of its answer, independently of how the list is walked:
      none exactly when no block fits; otherwise a fitting block that is the first one
      (first-fit), the smallest with the earliest among equals (best-fit), or the largest
      with the earliest among equals (worst-fit). */
  ghost predicate Chosen(bs: seq<Block>, n: nat, algo: Algo, r: Option<nat>)
  {
    match r
    case None => forall i :: 0 <= i < |bs| ==> !Fits(bs[i], n)
    case Some(k) =>
      && k < |bs| && Fits(bs[k], n)
      && match algo
         case FirstFit =>
           forall i :: 0 <= i < k ==> !Fits(bs[i], n)
         case BestFit =>
           && (forall i :: 0 <= i < |bs| && Fits(bs[i], n) ==> bs[k].Size() <= bs[i].Size())
           && (forall i :: 0 <= i < k && Fits(bs[i], n) ==> bs[k].Size() < bs[i].Size())
         case WorstFit =>
           && (forall i :: 0 <= i < |bs| && Fits(bs[i], n) ==> bs[k].Size() >= bs[i].Size())
           && (forall i :: 0 <= i < k && Fits(bs[i], n) ==> bs[k].Size() > bs[i].Size())
  }

  /** The index find_free_block returns for the list `bs`: the pick after walking every
      block, defined by the pick over all blocks but the last. */
  function Select(bs: seq<Block>, n: nat, algo: Algo): (r: Option<nat>)
    ensures Chosen(bs, n, algo, r)
    decreases |bs|
  {
    if bs == [] then None
    else
      var last := |bs| - 1;
      var front := bs[..last];
      var r0 := Select(front, n, algo);
      assert forall i :: 0 <= i < last ==> front[i] == bs[i];
      if !Fits(bs[last], n) then r0
      else if r0.None? || Displaces(algo, bs[last].Size(), bs[r0.value].Size()) then Some(last)
      else r0
  }

  /** The policies' promises pin the answer down: at most one index satisfies them. */
  lemma ChosenUnique(bs: seq<Block>, n: nat, algo: Algo, r1: Option<nat>, r2: Option<nat>)
    requires Chosen(bs, n, algo, r1) && Chosen(bs, n, algo, r2)
    ensures r1 == r2
  {
  }

  /** Any index meeting a policy's promise is the one find_free_block returns. */
  lemma SelectIsChosen(bs: seq<Block>, n: nat, algo: Algo, r: Option<nat>)
    requires Chosen(bs, n, algo, r)
    ensures Select(bs, n, algo) == r
  {
    ChosenUnique(bs, n, algo, r, Select(bs, n, algo));
  }

  /** Two holes that fit, the earlier one larger, and every other block that fits comes
      after both and is larger than the later hole (the ~2000 and ~500 byte holes of the
      best-fit demonstration in kernel.c, with the free rest of the pool behind them):
      first-fit takes the earlier hole and best-fit the later, smaller one; worst-fit
      never takes the smaller hole, and takes the earlier one unless a later block is
      larger still. */
  lemma {:induction false} TwoHoles(bs: seq<Block>, n: nat, i: nat, j: nat)
    requires i < j < |bs| && Fits(bs[i], n) && Fits(bs[j], n) && bs[j].Size() < bs[i].Size()
    requires forall k :: 0 <= k < |bs| && k != i && k != j && Fits(bs[k], n) ==>
               j < k && bs[j].Size() < bs[k].Size()
    ensures Select(bs, n, FirstFit) == Some(i)
    ensures Select(bs, n, BestFit) == Some(j)
    ensures Select(bs, n, WorstFit).Some? && Select(bs, n, WorstFit).value != j
    ensures (forall k :: j < k < |bs| && Fits(bs[k], n) ==> bs[k].Size() <= bs[i].Size()) ==>
              Select(bs, n, WorstFit) == Some(i)
  {
    SelectIsChosen(bs, n, FirstFit, Some(i));
    SelectIsChosen(bs, n, BestFit, Some(j));
    if forall k :: j < k < |bs| && Fits(bs[k], n) ==> bs[k].Size() <= bs[i].Size() {
      SelectIsChosen(bs, n, WorstFit, Some(i));
    }
  }
}
