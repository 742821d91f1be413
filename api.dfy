/**
 * The public operations of memory.c (my_malloc, my_free, my_calloc, my_realloc) as
 * functions from the block list before a call to the pointer returned and the list
 * after it, and what they promise: about the live allocations (handle to payload), the
 * placement, the growth retry, coalescing and the bytes a caller keeps.
 *
 * sbrk is an oracle: each call receives the answers sbrk gives to the at most two
 * requests it can make (the first arena of DEFAULT_HEAP_SIZE bytes, then one growth).
 */
module Api {
  import opened Blocks
  import opened Fit

  /** The pointer a call returns (None is NULL) and the block list it leaves. */
  datatype Outcome = Outcome(ptr: Option<nat>, blocks: seq<Block>)

  function Zeros(n: nat): seq<bv8>
  {
    seq(n, _ => 0 as bv8)
  }

  function Min(a: nat, b: nat): nat
  {
    if a <= b then a else b
  }

  /** The list my_malloc searches: the current one, or the first arena formatted by
      heap_init when the heap has no blocks yet. */
  function Started(bs: seq<Block>, initGrant: Option<seq<bv8>>): seq<Block>
    requires bs != [] || initGrant.Some?
  {
    if bs == [] then Format(initGrant.value) else bs
  }

  /** my_malloc(size, algo). */
  function MallocSpec(bs: seq<Block>, size: nat, algo: Algo,
                      initGrant: Option<seq<bv8>>, growGrant: Option<seq<bv8>>): Outcome
    requires SbrkAnswers(initGrant, DEFAULT_HEAP_SIZE)
    requires SbrkAnswers(growGrant, GrowSize(Round8(size) + H))
  {
    if size == 0 || (bs == [] && initGrant.None?) then Outcome(None, bs)
    else
      var bs0 := Started(bs, initGrant);
      var n := Round8(size);
      match Select(bs0, n, algo)
      case Some(k) => Outcome(Some(Handle(bs0, k)), Place(bs0, k, n))
      case None =>
        if growGrant.None? then Outcome(None, bs0)
        else
          var bs1 := Grow(bs0, growGrant.value);
          match Select(bs1, n, algo)
          case Some(k) => Outcome(Some(Handle(bs1, k)), Place(bs1, k, n))
          case None => Outcome(None, bs1)
  }

  /** my_free(ptr): NULL is ignored; otherwise the block becomes free and is coalesced. */
  ghost function FreeSpec(bs: seq<Block>, p: Option<nat>): seq<Block>
    requires p.Some? ==> p.value in Allocations(bs)
  {
    if p.None? then bs
    else
      var k := BlockOf(bs, p.value);
      Coalesce(SetFree(bs, k, true), k)
  }

  /** The outcome of an allocation that returned a pointer to at least n bytes (or NULL). */
  ghost predicate Serves(o: Outcome, n: nat)
  {
    o.ptr.Some? ==> o.ptr.value in Allocations(o.blocks) && |Allocations(o.blocks)[o.ptr.value]| >= n
  }

  /** What my_malloc promises of its outcome `o` over the allocations `before` the call:
      NULL leaves them as they were; a returned pointer is new, live afterwards with at
      least n bytes, and no other allocation changed. */
  ghost predicate FreshAllocation(before: map<nat, seq<bv8>>, o: Outcome, n: nat)
  {
    && (o.ptr.None? ==> Allocations(o.blocks) == before)
    && (o.ptr.Some? ==>
          && o.ptr.value !in before
          && o.ptr.value in Allocations(o.blocks)
          && Allocations(o.blocks) == before[o.ptr.value := Allocations(o.blocks)[o.ptr.value]]
          && |Allocations(o.blocks)[o.ptr.value]| >= n)
  }

  /** memset(ptr, 0, n) after an allocation, when it returned a pointer. */
  ghost function ZeroFill(o: Outcome, n: nat): Outcome
    requires Serves(o, n)
  {
    if o.ptr.None? then o
    else
      var k := BlockOf(o.blocks, o.ptr.value);
      Outcome(o.ptr, Overwrite(o.blocks, k, Zeros(n)))
  }

  /** What my_calloc promises of its outcome `o` over the allocations `before` the call:
      a returned pointer is new, it is live afterwards with at least n bytes, the first n
      of them zero, and no other allocation changed. */
  ghost predicate ZeroedAllocation(before: map<nat, seq<bv8>>, o: Outcome, n: nat)
  {
    o.ptr.Some? ==>
      && o.ptr.value !in before
      && o.ptr.value in Allocations(o.blocks)
      && Allocations(o.blocks) == before[o.ptr.value := Allocations(o.blocks)[o.ptr.value]]
      && |Allocations(o.blocks)[o.ptr.value]| >= n
      && Allocations(o.blocks)[o.ptr.value][..n] == Zeros(n)
  }

  /** What my_calloc promises of its outcome `o`, given the pointer `mallocPtr` my_malloc
      returns for n bytes: it returns that pointer; NULL leaves the allocations `before`
      the call alone; a returned pointer is a new allocation whose first n bytes are zero. */
  ghost predicate CallocOutcome(before: map<nat, seq<bv8>>, mallocPtr: Option<nat>, o: Outcome, n: nat)
  {
    && o.ptr == mallocPtr
    && (o.ptr.None? ==> Allocations(o.blocks) == before)
    && ZeroedAllocation(before, o, n)
  }

  /** The byte count my_calloc asks my_malloc for, `num * size` (without size_t
      wrap-around), computed as `num` additions of `size` so that the contracts that
      mention it carry no product; CallocBytesIsProduct relates the two. */
  function CallocBytes(num: nat, size: nat): nat
  {
    Repeated(num, size)
  }

  /** `count` additions of `size`. */
  function Repeated(count: nat, size: nat): nat
  {
    if count == 0 then 0 else size + Repeated(count - 1, size)
  }

  lemma {:induction false} RepeatedIsProduct(count: nat, size: nat)
    ensures Repeated(count, size) == count * size
  {
    if count > 0 {
      RepeatedIsProduct(count - 1, size);
    }
  }

  lemma {:induction false} CallocBytesIsProduct(num: nat, size: nat)
    ensures CallocBytes(num, size) == num * size
  {
    RepeatedIsProduct(num, size);
  }

  /** my_calloc(num, size, algo): my_malloc of num * size bytes, then those bytes zeroed. */
  ghost function CallocSpec(bs: seq<Block>, num: nat, size: nat, algo: Algo,
                            initGrant: Option<seq<bv8>>, growGrant: Option<seq<bv8>>): Outcome
    requires SbrkAnswers(initGrant, DEFAULT_HEAP_SIZE)
    requires SbrkAnswers(growGrant, GrowSize(Round8(CallocBytes(num, size)) + H))
  {
    MallocServes(bs, CallocBytes(num, size), algo, initGrant, growGrant);
    ZeroFill(MallocSpec(bs, CallocBytes(num, size), algo, initGrant, growGrant), CallocBytes(num, size))
  }

  /** Whether my_realloc can serve `size` bytes for block k in place: the block is large
      enough, or its free successor brings enough. */
  predicate FitsInPlace(bs: seq<Block>, k: nat, size: nat)
    requires k < |bs|
  {
    || bs[k].Size() >= size
    || (k + 1 < |bs| && bs[k + 1].isFree && bs[k].Size() + H + bs[k + 1].Size() >= size)
  }

  /** my_realloc(ptr, size). */
  ghost function ReallocSpec(bs: seq<Block>, p: Option<nat>, size: nat,
                             initGrant: Option<seq<bv8>>, growGrant: Option<seq<bv8>>): Outcome
    requires p.Some? ==> p.value in Allocations(bs)
    requires SbrkAnswers(initGrant, DEFAULT_HEAP_SIZE)
    requires SbrkAnswers(growGrant, GrowSize(Round8(size) + H))
  {
    if p.None? then MallocSpec(bs, size, FirstFit, initGrant, growGrant)
    else if size == 0 then Outcome(None, FreeSpec(bs, p))
    else
      var k := BlockOf(bs, p.value);
      if bs[k].Size() >= size then Outcome(p, Split(bs, k, size))
      else if FitsInPlace(bs, k, size) then Outcome(p, Split(MergeNext(bs, k), k, size))
      else
        var o := MallocSpec(bs, size, FirstFit, initGrant, growGrant);
        if o.ptr.None? then o
        else
          MallocAllocations(bs, size, FirstFit, initGrant, growGrant);
          var j := BlockOf(o.blocks, o.ptr.value);
          OverwriteEffect(o.blocks, j, bs[k].data);
          var copied := Overwrite(o.blocks, j, bs[k].data);
          Outcome(o.ptr, FreeSpec(copied, p))
  }

  // ---------------------------------------------------------------------------
  // Placement and growth

  /** Placing a request of n bytes in a fitting free block: the block becomes used at the
      same address, holds n bytes exactly when it was split and all of itself otherwise,
      and its handle is a new allocation; nothing else changes for callers. */
  lemma {:induction false} PlaceEffect(bs: seq<Block>, k: nat, n: nat)
    requires k < |bs| && Fits(bs[k], n)
    ensures var r := Place(bs, k, n);
      && Footprint(r) == Footprint(bs)
      && k < |r| && Handle(r, k) == Handle(bs, k)
      && !r[k].isFree
      && r[k].Size() == (if bs[k].Size() > n + H then n else bs[k].Size())
      && Handle(bs, k) !in Allocations(bs)
      && Allocations(r) == Allocations(bs)[Handle(bs, k) := r[k].data]
  {
    var s := Split(bs, k, n);
    SplitShape(bs, k, n);
    SplitKeepsAddresses(bs, k, n);
    SplitAllocations(bs, k, n);
    AllocsAt(bs, k);
    AllocsReplace(s, k, s[k].(isFree := false));
  }

  /** my_malloc keeps a list without adjacent free blocks that way. */
  lemma {:induction false} PlaceNoAdjacentFree(bs: seq<Block>, k: nat, n: nat)
    requires k < |bs| && Fits(bs[k], n) && NoAdjacentFree(bs)
    ensures NoAdjacentFree(Place(bs, k, n))
  {
    var r := Place(bs, k, n);
    SplitShape(bs, k, n);
    if bs[k].Size() > n + H {
      forall j | 0 <= j < |r| - 1 ensures !(r[j].isFree && r[j + 1].isFree) {
        if j + 1 < k {
          assert r[j] == bs[j] && r[j + 1] == bs[j + 1];
        } else if j == k + 1 {
          assert r[j + 1] == bs[k + 1];
          assert !bs[k + 1].isFree;
        } else if j > k + 1 {
          assert r[j] == bs[j - 1] && r[j + 1] == bs[j];
        }
      }
    } else {
      forall j | 0 <= j < |r| - 1 ensures !(r[j].isFree && r[j + 1].isFree) {
        if j + 1 < k || j > k {
          assert r[j] == bs[j] && r[j + 1] == bs[j + 1];
        }
      }
    }
  }

  /** extend_heap acquires whole growth units and frees nothing and allocates nothing:
      the list spans exactly the new region more, and the allocations are unchanged. */
  lemma {:induction false} GrowEffect(bs: seq<Block>, region: seq<bv8>)
    requires |region| >= H
    ensures Footprint(Grow(bs, region)) == Footprint(bs) + |region|
    ensures Allocations(Grow(bs, region)) == Allocations(bs)
    ensures NoAdjacentFree(bs) ==> NoAdjacentFree(Grow(bs, region))
  {
    var nb := Block(true, region[H..]);
    var t := bs + [nb];
    FootprintConcat(bs, [nb]);
    FootprintOne(nb);
    AllocsConcat(bs, [nb], 0);
    AllocsOne(nb, Footprint(bs));
    CoalesceEffect(t, |bs|);
    if NoAdjacentFree(bs) {
      CoalesceNoAdjacentFree(t, |bs|);
    }
  }

  /** After a growth sized for the request, the retry of find_free_block cannot fail,
      whatever the policy: the tail block, merged or not, holds the request. */
  lemma {:induction false} GrowFits(bs: seq<Block>, region: seq<bv8>, n: nat, algo: Algo)
    requires |region| >= n + H
    ensures Select(Grow(bs, region), n, algo).Some?
  {
    var t := bs + [Block(true, region[H..])];
    var g := Grow(bs, region);
    var i := |bs|;
    if 0 < i && t[i - 1].isFree {
      MergeShape(t, i - 1);
      assert Fits(g[i - 1], n);
    } else {
      assert g == t;
      assert Fits(g[i], n);
    }
  }

  lemma FormatEffect(region: seq<bv8>)
    ensures Footprint(Format(region)) == if |region| < H then 0 else |region|
    ensures Allocations(Format(region)) == map[]
    ensures NoAdjacentFree(Format(region))
  {
    if |region| >= H {
      FootprintOne(Block(true, region[H..]));
      AllocsOne(Block(true, region[H..]), 0);
    }
  }

  // ---------------------------------------------------------------------------
  // my_malloc

  /** my_malloc returns NULL only for a zero request or when sbrk refused: the retry
      after a successful growth always finds a block, so the final NULL is unreachable. */
  lemma {:induction false} MallocFailsOnlyWhenRefused(bs: seq<Block>, size: nat, algo: Algo,
                                                      initGrant: Option<seq<bv8>>, growGrant: Option<seq<bv8>>)
    requires SbrkAnswers(initGrant, DEFAULT_HEAP_SIZE)
    requires SbrkAnswers(growGrant, GrowSize(Round8(size) + H))
    ensures MallocSpec(bs, size, algo, initGrant, growGrant).ptr.None? <==>
      || size == 0
      || (bs == [] && initGrant.None?)
      || (Select(Started(bs, initGrant), Round8(size), algo).None? && growGrant.None?)
    ensures MallocSpec(bs, size, algo, initGrant, growGrant).ptr.None? && bs != [] ==>
      MallocSpec(bs, size, algo, initGrant, growGrant).blocks == bs
  {
    var o := MallocSpec(bs, size, algo, initGrant, growGrant);
    if size == 0 || (bs == [] && initGrant.None?) {
      assert o == Outcome(None, bs);
    } else {
      var bs0, n := Started(bs, initGrant), Round8(size);
      if Select(bs0, n, algo).Some? {
        assert o.ptr.Some?;
      } else if growGrant.None? {
        assert o == Outcome(None, bs0);
      } else {
        assert |growGrant.value| >= n + H by {
          assert GrowSize(n + H) >= Round8(n + H) >= n + H;
        }
        GrowFits(bs0, growGrant.value, n, algo);
        assert o.ptr.Some?;
      }
    }
  }

  /** What my_malloc does to the live allocations: a returned pointer is a new handle,
      mapped to a payload of at least the 8-rounded request, and every other allocation
      keeps its handle and its bytes; a NULL return leaves them all alone. */
  lemma {:induction false} MallocAllocations(bs: seq<Block>, size: nat, algo: Algo,
                                             initGrant: Option<seq<bv8>>, growGrant: Option<seq<bv8>>)
    requires SbrkAnswers(initGrant, DEFAULT_HEAP_SIZE)
    requires SbrkAnswers(growGrant, GrowSize(Round8(size) + H))
    ensures FreshAllocation(Allocations(bs), MallocSpec(bs, size, algo, initGrant, growGrant), Round8(size))
  {
    if size > 0 && (bs != [] || initGrant.Some?) {
      var bs0 := Started(bs, initGrant);
      var n := Round8(size);
      if bs == [] {
        FormatEffect(initGrant.value);
      }
      assert Allocations(bs0) == Allocations(bs);
      match Select(bs0, n, algo)
      case Some(k) =>
        PlaceEffect(bs0, k, n);
        AllocsAt(Place(bs0, k, n), k);
      case None =>
        if growGrant.Some? {
          var bs1 := Grow(bs0, growGrant.value);
          GrowEffect(bs0, growGrant.value);
          match Select(bs1, n, algo)
          case Some(k) =>
            PlaceEffect(bs1, k, n);
            AllocsAt(Place(bs1, k, n), k);
          case None =>
        }
    }
  }

  /** A pointer my_malloc returns is live and holds at least the bytes asked for. */
  lemma {:induction false} MallocServes(bs: seq<Block>, size: nat, algo: Algo,
                                        initGrant: Option<seq<bv8>>, growGrant: Option<seq<bv8>>)
    requires SbrkAnswers(initGrant, DEFAULT_HEAP_SIZE)
    requires SbrkAnswers(growGrant, GrowSize(Round8(size) + H))
    ensures Serves(MallocSpec(bs, size, algo, initGrant, growGrant), size)
  {
    MallocAllocations(bs, size, algo, initGrant, growGrant);
  }

  /** my_malloc keeps the list free of adjacent free blocks when it was so before. */
  lemma {:induction false} MallocNoAdjacentFree(bs: seq<Block>, size: nat, algo: Algo,
                                                initGrant: Option<seq<bv8>>, growGrant: Option<seq<bv8>>)
    requires SbrkAnswers(initGrant, DEFAULT_HEAP_SIZE)
    requires SbrkAnswers(growGrant, GrowSize(Round8(size) + H))
    requires NoAdjacentFree(bs)
    ensures NoAdjacentFree(MallocSpec(bs, size, algo, initGrant, growGrant).blocks)
  {
    var o := MallocSpec(bs, size, algo, initGrant, growGrant);
    if size == 0 || (bs == [] && initGrant.None?) {
      assert o.blocks == bs;
    } else {
      var bs0, n := Started(bs, initGrant), Round8(size);
      if bs == [] {
        FormatEffect(initGrant.value);
      }
      assert NoAdjacentFree(bs0);
      if Select(bs0, n, algo).Some? {
        var k := Select(bs0, n, algo).value;
        PlaceNoAdjacentFree(bs0, k, n);
        assert o.blocks == Place(bs0, k, n);
      } else if growGrant.None? {
        assert o.blocks == bs0;
      } else {
        var bs1 := Grow(bs0, growGrant.value);
        GrowEffect(bs0, growGrant.value);
        assert NoAdjacentFree(bs1);
        if Select(bs1, n, algo).Some? {
          var k := Select(bs1, n, algo).value;
          PlaceNoAdjacentFree(bs1, k, n);
          assert o.blocks == Place(bs1, k, n);
        } else {
          assert o.blocks == bs1;
        }
      }
    }
  }

  /** Two successive allocations that both succeed return different pointers, and both
      are live afterwards. */
  lemma {:induction false} MallocDistinct(bs: seq<Block>, size1: nat, size2: nat, algo1: Algo, algo2: Algo,
                                          init1: Option<seq<bv8>>, grow1: Option<seq<bv8>>,
                                          init2: Option<seq<bv8>>, grow2: Option<seq<bv8>>)
    requires SbrkAnswers(init1, DEFAULT_HEAP_SIZE) && SbrkAnswers(grow1, GrowSize(Round8(size1) + H))
    requires SbrkAnswers(init2, DEFAULT_HEAP_SIZE) && SbrkAnswers(grow2, GrowSize(Round8(size2) + H))
    ensures var o1 := MallocSpec(bs, size1, algo1, init1, grow1);
            var o2 := MallocSpec(o1.blocks, size2, algo2, init2, grow2);
      o1.ptr.Some? && o2.ptr.Some? ==>
        && o1.ptr.value != o2.ptr.value
        && o1.ptr.value in Allocations(o2.blocks)
        && o2.ptr.value in Allocations(o2.blocks)
  {
    MallocAllocations(bs, size1, algo1, init1, grow1);
    var o1 := MallocSpec(bs, size1, algo1, init1, grow1);
    MallocAllocations(o1.blocks, size2, algo2, init2, grow2);
  }

  /** The payloads of two live allocations never overlap. */
  lemma LiveAllocationsDisjoint(bs: seq<Block>, p: nat, q: nat)
    requires p in Allocations(bs) && q in Allocations(bs) && p < q
    ensures p + |Allocations(bs)[p]| < q
  {
    var j, k := BlockOf(bs, p), BlockOf(bs, q);
    if k < j {
      PayloadsDisjoint(bs, k, j);
    }
    PayloadsDisjoint(bs, j, k);
  }

  // ---------------------------------------------------------------------------
  // my_free

  /** my_free of a live pointer removes exactly that allocation, spans the same bytes,
      drops one block per merge, and leaves no two adjacent free blocks if there were
      none before. */
  lemma {:induction false} FreeEffect(bs: seq<Block>, p: nat)
    requires p in Allocations(bs)
    ensures var k := BlockOf(bs, p); var r := FreeSpec(bs, Some(p));
      && Footprint(r) == Footprint(bs)
      && Allocations(r) == Allocations(bs) - {p}
      && |r| == |bs| - Merges(bs, k)
      && (NoAdjacentFree(bs) ==> NoAdjacentFree(r))
  {
    var k := BlockOf(bs, p);
    var f := SetFree(bs, k, true);
    AllocsReplace(bs, k, bs[k].(isFree := true));
    CoalesceEffect(f, k);
    if NoAdjacentFree(bs) {
      CoalesceNoAdjacentFree(f, k);
    }
  }

  /** my_free of a used block whose predecessor is used: the block stays where it was,
      free, and at least as large (it may have absorbed a free successor); the blocks
      before it are untouched. */
  lemma {:induction false} FreedBlockStays(bs: seq<Block>, k: nat)
    requires k < |bs| && !bs[k].isFree
    requires 0 < k ==> !bs[k - 1].isFree
    ensures Handle(bs, k) in Allocations(bs)
    ensures var c := FreeSpec(bs, Some(Handle(bs, k)));
      && k < |c| && c[k].isFree && c[k].Size() >= bs[k].Size()
      && Handle(c, k) == Handle(bs, k)
      && forall j :: 0 <= j < k ==> c[j] == bs[j]
  {
    AllocsAt(bs, k);
    var k' := BlockOf(bs, Handle(bs, k));
    HandleInjective(bs, k, k');
    var f := SetFree(bs, k, true);
    AllocsReplace(bs, k, bs[k].(isFree := true));
    if k + 1 < |f| && f[k + 1].isFree {
      var c := MergeNext(f, k);
      MergeShape(f, k);
      MergeKeepsAddresses(f, k);
      assert Coalesce(f, k) == c;
    } else {
      assert Coalesce(f, k) == f;
    }
  }

  /** The block a malloc/free sequence hands back: freeing a used block whose predecessor
      is used and then asking first-fit for no more than it held, with no earlier hole
      that fits, returns the freed block's pointer again, whether or not a free
      successor was merged into it. */
  lemma {:induction false} FreedHoleIsReused(bs: seq<Block>, k: nat, size: nat,
                                             initGrant: Option<seq<bv8>>, growGrant: Option<seq<bv8>>)
    requires k < |bs| && !bs[k].isFree
    requires 0 < k ==> !bs[k - 1].isFree
    requires 0 < size && Round8(size) <= bs[k].Size()
    requires forall j :: 0 <= j < k ==> !Fits(bs[j], Round8(size))
    requires SbrkAnswers(initGrant, DEFAULT_HEAP_SIZE)
    requires SbrkAnswers(growGrant, GrowSize(Round8(size) + H))
    ensures Handle(bs, k) in Allocations(bs)
    ensures MallocSpec(FreeSpec(bs, Some(Handle(bs, k))), size, FirstFit, initGrant, growGrant).ptr == Some(Handle(bs, k))
  {
    FreedBlockStays(bs, k);
    var c := FreeSpec(bs, Some(Handle(bs, k)));
    assert Started(c, initGrant) == c;
    SelectIsChosen(c, Round8(size), FirstFit, Some(k));
    assert MallocSpec(c, size, FirstFit, initGrant, growGrant)
        == Outcome(Some(Handle(c, k)), Place(c, k, Round8(size)));
  }

  // ---------------------------------------------------------------------------
  // my_calloc

  /** my_calloc behaves as my_malloc of num * size bytes, and the first num * size bytes
      of the new allocation are zero. */
  lemma {:induction false} CallocZeroes(bs: seq<Block>, num: nat, size: nat, algo: Algo,
                                        initGrant: Option<seq<bv8>>, growGrant: Option<seq<bv8>>)
    requires SbrkAnswers(initGrant, DEFAULT_HEAP_SIZE)
    requires SbrkAnswers(growGrant, GrowSize(Round8(CallocBytes(num, size)) + H))
    ensures CallocOutcome(Allocations(bs), MallocSpec(bs, CallocBytes(num, size), algo, initGrant, growGrant).ptr,
                          CallocSpec(bs, num, size, algo, initGrant, growGrant), CallocBytes(num, size))
  {
    var n := CallocBytes(num, size);
    var m := MallocSpec(bs, n, algo, initGrant, growGrant);
    MallocAllocations(bs, n, algo, initGrant, growGrant);
    ZeroFillEffect(m, n);
    var z := ZeroFill(m, n);
    assert CallocSpec(bs, num, size, algo, initGrant, growGrant) == z;
    if m.ptr.Some? {
      var q := m.ptr.value;
      assert Allocations(z.blocks) == Allocations(bs)[q := Allocations(z.blocks)[q]];
      assert ZeroedAllocation(Allocations(bs), z, n);
    } else {
      assert z == m;
    }
  }

  /** Zero-filling changes only the returned allocation: its first n bytes become zero
      and its length stays. */
  lemma {:induction false} ZeroFillEffect(o: Outcome, n: nat)
    requires Serves(o, n)
    ensures var z := ZeroFill(o, n);
      && z.ptr == o.ptr
      && (o.ptr.None? ==> z == o)
      && (o.ptr.Some? ==>
            && o.ptr.value in Allocations(z.blocks)
            && Allocations(z.blocks) == Allocations(o.blocks)[o.ptr.value := Allocations(z.blocks)[o.ptr.value]]
            && |Allocations(z.blocks)[o.ptr.value]| == |Allocations(o.blocks)[o.ptr.value]|
            && Allocations(z.blocks)[o.ptr.value][..n] == Zeros(n))
  {
    if o.ptr.Some? {
      var k := BlockOf(o.blocks, o.ptr.value);
      OverwriteEffect(o.blocks, k, Zeros(n));
    }
  }

  // ---------------------------------------------------------------------------
  // my_realloc

  /** What my_realloc promises for a live pointer p resized to `size`, over the
      allocations `before` the call: a returned pointer is live with at least `size`
      bytes, and the first min(old size, size) of them are p's old bytes. */
  ghost predicate KeepsPrefix(before: map<nat, seq<bv8>>, p: nat, size: nat, o: Outcome)
  {
    p in before && o.ptr.Some? ==>
      && o.ptr.value in Allocations(o.blocks)
      && |Allocations(o.blocks)[o.ptr.value]| >= size
      && var kept := Min(|before[p]|, size);
         Allocations(o.blocks)[o.ptr.value][..kept] == before[p][..kept]
  }

  /** my_realloc of a live pointer to a non-zero size. It answers with the same pointer
      exactly when the block fits in place; otherwise with a new allocation, the old one
      released, or with NULL and the list untouched when sbrk refused. Whatever the
      answer, the pointer returned holds at least `size` bytes whose first
      min(old size, size) are the caller's old bytes, and no other allocation changes. */
  lemma {:induction false} ReallocEffect(bs: seq<Block>, p: nat, size: nat,
                                         initGrant: Option<seq<bv8>>, growGrant: Option<seq<bv8>>)
    requires p in Allocations(bs) && size > 0
    requires SbrkAnswers(initGrant, DEFAULT_HEAP_SIZE)
    requires SbrkAnswers(growGrant, GrowSize(Round8(size) + H))
    ensures var o := ReallocSpec(bs, Some(p), size, initGrant, growGrant);
      && (o.ptr == Some(p) <==> FitsInPlace(bs, BlockOf(bs, p), size))
      && (o.ptr.None? ==> o.blocks == bs)
      && KeepsPrefix(Allocations(bs), p, size, o)
      && (o.ptr.Some? ==>
            && o.ptr.value in Allocations(o.blocks)
            && (o.ptr.value == p ==>
                  Allocations(o.blocks) == Allocations(bs)[p := Allocations(o.blocks)[p]])
            && (o.ptr.value != p ==>
                  && o.ptr.value !in Allocations(bs)
                  && Allocations(o.blocks) == (Allocations(bs) - {p})[o.ptr.value := Allocations(o.blocks)[o.ptr.value]]))
  {
    var k := BlockOf(bs, p);
    if bs[k].Size() >= size {
      ShrinkInPlace(bs, k, size);
    } else if FitsInPlace(bs, k, size) {
      GrowInPlace(bs, k, size);
    } else {
      ReallocMoves(bs, p, size, initGrant, growGrant);
    }
  }

  /** realloc to no more than the block holds: the block is split to `size` at most and
      keeps its handle and its first `size` bytes. */
  lemma {:induction false} ShrinkInPlace(bs: seq<Block>, k: nat, size: nat)
    requires k < |bs| && !bs[k].isFree && bs[k].Size() >= size
    ensures var r := Split(bs, k, size);
      && k < |r| && Handle(r, k) == Handle(bs, k) && !r[k].isFree
      && |r[k].data| >= size && r[k].data[..size] == bs[k].data[..size]
      && Allocations(r) == Allocations(bs)[Handle(bs, k) := r[k].data]
  {
    AllocsAt(bs, k);
    SplitAllocations(bs, k, size);
    SplitKeepsAddresses(bs, k, size);
    SplitShape(bs, k, size);
  }

  /** realloc absorbing a free successor: the block keeps its handle and all its old
      bytes, holds at least `size`, and the successor's space leaves the free pool. */
  lemma {:induction false} GrowInPlace(bs: seq<Block>, k: nat, size: nat)
    requires k + 1 < |bs| && !bs[k].isFree && bs[k + 1].isFree
    requires bs[k].Size() < size <= bs[k].Size() + H + bs[k + 1].Size()
    ensures var r := Split(MergeNext(bs, k), k, size);
      && k < |r| && Handle(r, k) == Handle(bs, k) && !r[k].isFree
      && |r[k].data| >= size && r[k].data[..|bs[k].data|] == bs[k].data
    ensures var r := Split(MergeNext(bs, k), k, size);
      && k < |r| && Allocations(r) == Allocations(bs)[Handle(bs, k) := r[k].data]
  {
    var m := MergeNext(bs, k);
    MergeAllocations(bs, k);
    MergeShape(bs, k);
    MergeKeepsAddresses(bs, k);
    SplitAllocations(m, k, size);
    SplitKeepsAddresses(m, k, size);
    SplitShape(m, k, size);
    assert m[k].data[..|bs[k].data|] == bs[k].data;
  }

  /** realloc that cannot stay in place: NULL with the list untouched when my_malloc
      fails, and otherwise a new allocation holding the old bytes while the old one is
      released. */
  lemma {:induction false} ReallocMoves(bs: seq<Block>, p: nat, size: nat,
                                        initGrant: Option<seq<bv8>>, growGrant: Option<seq<bv8>>)
    requires p in Allocations(bs) && size > 0
    requires SbrkAnswers(initGrant, DEFAULT_HEAP_SIZE)
    requires SbrkAnswers(growGrant, GrowSize(Round8(size) + H))
    requires !FitsInPlace(bs, BlockOf(bs, p), size)
    ensures var o := ReallocSpec(bs, Some(p), size, initGrant, growGrant);
            var was := Allocations(bs)[p];
      && (o.ptr.None? ==> o.blocks == bs)
      && (o.ptr.Some? ==>
            && o.ptr.value != p
            && o.ptr.value !in Allocations(bs)
            && o.ptr.value in Allocations(o.blocks)
            && Allocations(o.blocks) == (Allocations(bs) - {p})[o.ptr.value := Allocations(o.blocks)[o.ptr.value]]
            && |Allocations(o.blocks)[o.ptr.value]| >= size
            && Allocations(o.blocks)[o.ptr.value][..|was|] == was)
  {
    var k := BlockOf(bs, p);
    var was := bs[k].data;
    var o := MallocSpec(bs, size, FirstFit, initGrant, growGrant);
    var r := ReallocSpec(bs, Some(p), size, initGrant, growGrant);
    MallocFailsOnlyWhenRefused(bs, size, FirstFit, initGrant, growGrant);
    if o.ptr.Some? {
      MallocAllocations(bs, size, FirstFit, initGrant, growGrant);
      var q := o.ptr.value;
      var j := BlockOf(o.blocks, q);
      var copied := Overwrite(o.blocks, j, was);
      OverwriteEffect(o.blocks, j, was);
      assert r == Outcome(o.ptr, FreeSpec(copied, Some(p)));
      var d := copied[j].data;
      FreeEffect(copied, p);
      MovedMaps(Allocations(bs), Allocations(o.blocks), Allocations(copied), Allocations(r.blocks), p, q, d);
    } else {
      assert r == o;
    }
  }

  /** The allocations after a moving realloc: a new pointer added, its bytes replaced,
      then the old pointer removed. */
  lemma MovedMaps(A0: map<nat, seq<bv8>>, A1: map<nat, seq<bv8>>, A2: map<nat, seq<bv8>>, A3: map<nat, seq<bv8>>,
                  p: nat, q: nat, d: seq<bv8>)
    requires p in A0 && q !in A0 && q in A1
    requires A1 == A0[q := A1[q]] && A2 == A1[q := d] && A3 == A2 - {p}
    ensures p != q && q in A3 && A3[q] == d && A3 == (A0 - {p})[q := d]
  {
  }

  /** A shrinking realloc splits off a free remainder without coalescing it, so a used
      block followed by a free one, shrunk by more than a header, leaves two adjacent
      free blocks; and the block keeps the unrounded size. */
  lemma ShrinkLeavesAdjacentFree()
    ensures var bs := [Block(false, Zeros(2 * H + 16)), Block(true, Zeros(8))];
            var o := ReallocSpec(bs, Some(H), 5, None, None);
      && H in Allocations(bs)
      && o.ptr == Some(H)
      && o.blocks[0].Size() == 5
      && !NoAdjacentFree(o.blocks)
  {
    var bs := [Block(false, Zeros(2 * H + 16)), Block(true, Zeros(8))];
    assert bs[..0] == [];
    assert Handle(bs, 0) == H;
    AllocsAt(bs, 0);
    assert BlockOf(bs, H) == 0 by {
      HandleInjective(bs, 0, BlockOf(bs, H));
    }
    SplitShape(bs, 0, 5);
    var r := Split(bs, 0, 5);
    assert r[1].isFree && r[2].isFree;
  }
}
