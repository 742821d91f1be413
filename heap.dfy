/**
 * The allocator's state and its operations as memory.c performs them: the two globals
 * (heap_start_addr with the list hanging from it, and heap_total_size) become the
 * fields of a Heap, and each routine a method that updates them step by step. Every
 * method keeps heap_total_size equal to the bytes the list spans. Malloc, Free, Calloc
 * and Realloc are proved to leave exactly the state the matching function of module Api
 * describes; HeapInit, MemoryInit, SplitBlock, CoalesceBlock, ExtendHeap and PlaceBlock
 * the state of the Blocks list edit they perform; Reset leaves no blocks; FindFreeBlock,
 * BlockFor and BlockCount change nothing.
 */
module Memory {
  import opened Blocks
  import opened Fit
  import opened Api

  class Heap {
    /** The block list reachable from heap_start_addr; empty when it is NULL. */
    var blocks: seq<Block>
    /** heap_total_size. */
    var total: nat

    /** Conservation: the size counter equals one header plus one payload per block. */
    ghost predicate Valid()
      reads this
    {
      total == Footprint(blocks)
    }

    /** The state before the first call: no heap. */
    constructor ()
      ensures Valid() && blocks == [] && total == 0
    {
      blocks := [];
      total := 0;
    }

    /** heap_init: a missing region or one smaller than a header is ignored; otherwise
        the region becomes the whole heap, one free block. */
    method HeapInit(region: Option<seq<bv8>>)
      requires Valid()
      modifies this
      ensures Valid()
      ensures if region.Some? && |region.value| >= H
              then blocks == Format(region.value) && total == |region.value|
              else blocks == old(blocks) && total == old(total)
    {
      if region.None? || |region.value| < H {
        return;
      }
      FormatEffect(region.value);
      total := |region.value|;
      blocks := [Block(true, region.value[H..])];
    }

    /** my_memory_init: sbrk(size), -1 when it refuses, else heap_init on the region. */
    method MemoryInit(size: nat, grant: Option<seq<bv8>>) returns (status: int)
      requires Valid() && SbrkAnswers(grant, size)
      modifies this
      ensures Valid()
      ensures status == if grant.None? then -1 else 0
      ensures if grant.Some? && size >= H
              then blocks == Format(grant.value) && total == size
              else blocks == old(blocks) && total == old(total)
    {
      if grant.None? {
        return -1;
      }
      HeapInit(grant);
      return 0;
    }

    /** my_memory_reset: forget the heap (its memory is not returned). */
    method Reset()
      modifies this
      ensures Valid() && blocks == [] && total == 0
    {
      blocks := [];
      total := 0;
    }

    /** find_free_block: walk the list keeping the pick so far; first-fit returns at the
        first block that fits. The answer is the one the policy's promise pins down. */
    method FindFreeBlock(size: nat, algo: Algo) returns (r: Option<nat>)
      ensures r == Select(blocks, size, algo)
      ensures Chosen(blocks, size, algo, r)
    {
      var i := 0;
      var best: Option<nat> := None;
      while i < |blocks|
        invariant i <= |blocks|
        invariant best == Select(blocks[..i], size, algo)
        invariant algo == FirstFit ==> best.None?
      {
        var current := blocks[i];
        assert blocks[..i + 1][..i] == blocks[..i];
        if current.isFree && current.Size() >= size {
          if algo == FirstFit {
            assert forall j :: 0 <= j < i ==> blocks[..i][j] == blocks[j];
            SelectIsChosen(blocks, size, algo, Some(i));
            return Some(i);
          } else if algo == BestFit {
            if best.None? || current.Size() < blocks[best.value].Size() {
              best := Some(i);
            }
          } else {
            if best.None? || current.Size() > blocks[best.value].Size() {
              best := Some(i);
            }
          }
        }
        i := i + 1;
      }
      assert blocks[..i] == blocks;
      return best;
    }

    /** split_block: a block more than a header larger than `size` keeps `size` bytes and
        the rest becomes a free block right after it; otherwise nothing changes. */
    method SplitBlock(i: nat, size: nat)
      requires Valid() && i < |blocks|
      modifies this
      ensures Valid() && total == old(total)
      ensures blocks == Split(old(blocks), i, size)
    {
      SplitKeepsAddresses(blocks, i, size);
      var block := blocks[i];
      if block.Size() > size + H {
        var newBlock := Block(true, block.data[size + H..]);
        blocks := blocks[..i] + [Block(block.isFree, block.data[..size]), newBlock] + blocks[i + 1..];
      }
    }

    /** coalesce, for the free block i: absorb a free successor, then be absorbed by a
        free predecessor. No allocation changes and the bytes spanned stay the same. */
    method CoalesceBlock(i: nat)
      requires Valid() && i < |blocks| && blocks[i].isFree
      modifies this
      ensures Valid() && total == old(total)
      ensures blocks == Coalesce(old(blocks), i)
      ensures |blocks| == |old(blocks)| - Merges(old(blocks), i)
      ensures Allocations(blocks) == Allocations(old(blocks))
    {
      CoalesceEffect(blocks, i);
      if i + 1 < |blocks| && blocks[i + 1].isFree {
        blocks := MergeNext(blocks, i);
      }
      if 0 < i && blocks[i - 1].isFree {
        blocks := MergeNext(blocks, i - 1);
      }
    }

    /** extend_heap(size): ask sbrk for whole growth units covering the 8-rounded size;
        on success the region becomes a free block after the tail and is coalesced. */
    method ExtendHeap(size: nat, grant: Option<seq<bv8>>) returns (ok: bool)
      requires Valid() && size >= H && SbrkAnswers(grant, GrowSize(size))
      modifies this
      ensures Valid()
      ensures ok == grant.Some?
      ensures ok ==> blocks == Grow(old(blocks), grant.value) && total == old(total) + GrowSize(size)
      ensures !ok ==> blocks == old(blocks) && total == old(total)
      ensures Allocations(blocks) == Allocations(old(blocks))
    {
      var rounded := Round8(size);
      var units := (rounded + DEFAULT_HEAP_SIZE - 1) / DEFAULT_HEAP_SIZE;
      var allocSize := units * DEFAULT_HEAP_SIZE;
      if grant.None? {
        return false;
      }
      var region := grant.value;
      GrowEffect(blocks, region);
      total := total + allocSize;
      var newBlock := Block(true, region[H..]);
      FootprintConcat(blocks, [newBlock]);
      FootprintOne(newBlock);
      if blocks != [] {
        var last := 0;
        while last + 1 < |blocks|
          invariant last < |blocks|
        {
          last := last + 1;
        }
        // the walk stops at the tail, the block without a successor
        assert last == |blocks| - 1;
        assert blocks[..last + 1] == blocks;
        blocks := blocks[..last + 1] + [newBlock];
      } else {
        blocks := [newBlock];
      }
      CoalesceBlock(|blocks| - 1);
      return true;
    }

    /** my_malloc. */
    method Malloc(size: nat, algo: Algo, initGrant: Option<seq<bv8>>, growGrant: Option<seq<bv8>>)
      returns (p: Option<nat>)
      requires Valid()
      requires SbrkAnswers(initGrant, DEFAULT_HEAP_SIZE)
      requires SbrkAnswers(growGrant, GrowSize(Round8(size) + H))
      modifies this
      ensures Valid()
      ensures p == MallocSpec(old(blocks), size, algo, initGrant, growGrant).ptr
      ensures blocks == MallocSpec(old(blocks), size, algo, initGrant, growGrant).blocks
      ensures FreshAllocation(Allocations(old(blocks)), Outcome(p, blocks), Round8(size))
      ensures NoAdjacentFree(old(blocks)) ==> NoAdjacentFree(blocks)
    {
      p := None;
      if size > 0 {
        var status := 0;
        if blocks == [] {
          status := MemoryInit(DEFAULT_HEAP_SIZE, initGrant);
        }
        if status == 0 {
          assert blocks == Started(old(blocks), initGrant);
          var n := Round8(size);
          var block := FindFreeBlock(n, algo);
          var grown := true;
          if block.None? {
            grown := ExtendHeap(n + H, growGrant);
            if grown {
              block := FindFreeBlock(n, algo);
            }
          }
          if grown && block.Some? {
            var ptr := PlaceBlock(block.value, n);
            p := Some(ptr);
          }
        }
      }
      assert Outcome(p, blocks) == MallocSpec(old(blocks), size, algo, initGrant, growGrant);
      MallocAllocations(old(blocks), size, algo, initGrant, growGrant);
      if NoAdjacentFree(old(blocks)) {
        MallocNoAdjacentFree(old(blocks), size, algo, initGrant, growGrant);
      }
    }

    /** The end of my_malloc once a block is found: split it to the request, mark it
        used, and hand out the byte after its header. */
    method PlaceBlock(k: nat, n: nat) returns (ptr: nat)
      requires Valid() && k < |blocks| && Fits(blocks[k], n)
      modifies this
      ensures Valid()
      ensures ptr == Handle(old(blocks), k) && blocks == Place(old(blocks), k, n)
    {
      ptr := Handle(blocks, k);
      PlaceEffect(blocks, k, n);
      SplitBlock(k, n);
      blocks := blocks[k := blocks[k].(isFree := false)];
    }

    /** Recovers the block of a live pointer: the one whose header ends where it points. */
    method BlockFor(ptr: nat) returns (k: nat)
      requires ptr in Allocations(blocks)
      ensures k == BlockOf(blocks, ptr)
    {
      ghost var w := BlockOf(blocks, ptr);
      k :| 0 <= k < |blocks| && Handle(blocks, k) == ptr;
      HandleInjective(blocks, k, w);
    }

    /** my_free: NULL is ignored; a live pointer's block is marked free and coalesced. */
    method Free(p: Option<nat>)
      requires Valid() && (p.Some? ==> p.value in Allocations(blocks))
      modifies this
      ensures Valid()
      ensures blocks == FreeSpec(old(blocks), p)
      ensures p.Some? ==> Allocations(blocks) == Allocations(old(blocks)) - {p.value}
      ensures NoAdjacentFree(old(blocks)) ==> NoAdjacentFree(blocks)
    {
      if p.None? {
        return;
      }
      FreeEffect(blocks, p.value);
      var k := BlockFor(p.value);
      AllocsReplace(blocks, k, blocks[k].(isFree := true));
      blocks := blocks[k := blocks[k].(isFree := true)];
      CoalesceBlock(k);
    }

    /** my_calloc: my_malloc of num * size bytes, then memset to zero. */
    method Calloc(num: nat, size: nat, algo: Algo, initGrant: Option<seq<bv8>>, growGrant: Option<seq<bv8>>)
      returns (p: Option<nat>)
      requires Valid()
      requires SbrkAnswers(initGrant, DEFAULT_HEAP_SIZE)
      requires SbrkAnswers(growGrant, GrowSize(Round8(CallocBytes(num, size)) + H))
      modifies this
      ensures Valid()
      ensures p == CallocSpec(old(blocks), num, size, algo, initGrant, growGrant).ptr
      ensures blocks == CallocSpec(old(blocks), num, size, algo, initGrant, growGrant).blocks
      ensures ZeroedAllocation(Allocations(old(blocks)), Outcome(p, blocks), CallocBytes(num, size))
    {
      var totalSize := CallocBytes(num, size);
      ghost var m := MallocSpec(blocks, totalSize, algo, initGrant, growGrant);
      p := Malloc(totalSize, algo, initGrant, growGrant);
      assert p == m.ptr && blocks == m.blocks;
      if p.Some? {
        var k := BlockFor(p.value);
        OverwriteEffect(blocks, k, Zeros(totalSize));
        var block := blocks[k];
        blocks := blocks[k := block.(data := Zeros(totalSize) + block.data[totalSize..])];
      }
      CallocZeroes(old(blocks), num, size, algo, initGrant, growGrant);
      assert Outcome(p, blocks) == CallocSpec(old(blocks), num, size, algo, initGrant, growGrant);
    }

    /** my_realloc. */
    method Realloc(p: Option<nat>, size: nat, initGrant: Option<seq<bv8>>, growGrant: Option<seq<bv8>>)
      returns (r: Option<nat>)
      requires Valid() && (p.Some? ==> p.value in Allocations(blocks))
      requires SbrkAnswers(initGrant, DEFAULT_HEAP_SIZE)
      requires SbrkAnswers(growGrant, GrowSize(Round8(size) + H))
      modifies this
      ensures Valid()
      ensures r == ReallocSpec(old(blocks), p, size, initGrant, growGrant).ptr
      ensures blocks == ReallocSpec(old(blocks), p, size, initGrant, growGrant).blocks
      ensures p.Some? && size > 0 ==> KeepsPrefix(Allocations(old(blocks)), p.value, size, Outcome(r, blocks))
      ensures p.Some? && size > 0 && r.None? ==> blocks == old(blocks)
    {
      ghost var o := ReallocSpec(blocks, p, size, initGrant, growGrant);
      if p.Some? && size > 0 {
        ReallocEffect(blocks, p.value, size, initGrant, growGrant);
      }
      if p.None? {
        r := Malloc(size, FirstFit, initGrant, growGrant);
      } else if size == 0 {
        Free(p);
        r := None;
      } else {
        var k := BlockFor(p.value);
        var oldSize := blocks[k].Size();
        if oldSize >= size {
          SplitBlock(k, size);
          r := p;
        } else if k + 1 < |blocks| && blocks[k + 1].isFree && oldSize + H + blocks[k + 1].Size() >= size {
          MergeKeepsAddresses(blocks, k);
          blocks := MergeNext(blocks, k);
          SplitBlock(k, size);
          r := p;
        } else {
          var oldData := blocks[k].data;
          r := Malloc(size, FirstFit, initGrant, growGrant);
          if r.Some? {
            var j := BlockFor(r.value);
            OverwriteEffect(blocks, j, oldData);
            var block := blocks[j];
            blocks := blocks[j := block.(data := oldData + block.data[|oldData|..])];
            Free(p);
          }
        }
      }
      assert r == o.ptr && blocks == o.blocks;
    }

    /** get_total_block_count: walk the list and count. */
    method BlockCount() returns (count: nat)
      ensures count == |blocks|
    {
      count := 0;
      var i := 0;
      while i < |blocks|
        invariant i <= |blocks| && count == i
      {
        count := count + 1;
        i := i + 1;
      }
    }
  }
}
