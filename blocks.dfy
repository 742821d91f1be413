/**
 * The block list of the memflex allocator as a value: the headers in list order
 * (the `next`/`prev` links of `block_header_t` become adjacent positions), the
 * address of each block as a prefix sum, the payload handed to callers, and the
 * list edits the allocator performs (split, merge with the successor, coalesce,
 * growth). The class in heap.dfy updates its state with exactly these functions.
 */
module Blocks {

  type Positive = x: nat | x > 0 witness 1

  /** sizeof(block_header_t). The struct's layout is not part of this model; only that a
      header takes at least one byte matters, so the constant is left symbolic. */
  const H: Positive

  /** The arena's growth unit (memory.c, DEFAULT_HEAP_SIZE). */
  const DEFAULT_HEAP_SIZE: nat := 640

  datatype Option<T> = None | Some(value: T)

  /** One header and the payload that follows it. The header's `size` field is the
      length of the payload. */
  datatype Block = Block(isFree: bool, data: seq<bv8>) {
    function Size(): nat { |data| }
  }

  /** `(n + 7) & ~7`: the least multiple of 8 that is at least n. */
  function Round8(n: nat): (r: nat)
    ensures r % 8 == 0 && n <= r < n + 8
  {
    (n + 7) / 8 * 8
  }

  /** The number of bytes extend_heap asks sbrk for: whole growth units covering the
      8-rounded request. The unit is written as the literal 640 (DEFAULT_HEAP_SIZE) so
      that the arithmetic stays linear. */
  function GrowSize(request: nat): (r: nat)
    ensures r % 640 == 0
    ensures Round8(request) <= r < Round8(request) + DEFAULT_HEAP_SIZE
  {
    var size := Round8(request);
    var units := (size + 640 - 1) / 640;
    units * 640
  }

  /** An answer of sbrk to a request for `request` bytes: None is `(void *)-1`, otherwise
      the bytes of the region it hands over. */
  predicate SbrkAnswers(grant: Option<seq<bv8>>, request: nat)
  {
    grant.Some? ==> |grant.value| == request
  }

  /** Bytes spanned by a list: one header plus the payload per block. */
  function Footprint(bs: seq<Block>): nat
  {
    FootprintWalk(bs)
  }

  /** The walk that sums Footprint, one block at a time. */
  function FootprintWalk(bs: seq<Block>): nat
  {
    if bs == [] then 0 else H + bs[0].Size() + FootprintWalk(bs[1..])
  }

  /** Offset of block i's header from the head of the list. */
  function Addr(bs: seq<Block>, i: nat): nat
    requires i <= |bs|
  {
    Footprint(bs[..i])
  }

  /** The pointer handed to callers for block i: the byte after its header. */
  function Handle(bs: seq<Block>, i: nat): nat
    requires i < |bs|
  {
    Addr(bs, i) + H
  }

  /** The live allocations of a list laid out from `base`: handle of each used block to
      its payload. */
  function AllocsFrom(bs: seq<Block>, base: nat): map<nat, seq<bv8>>
  {
    AllocsWalk(bs, base)
  }

  /** The walk that builds AllocsFrom, one block at a time. The lemmas below are stated
      with AllocsFrom, so that only the few that need the walk unfold it. */
  function AllocsWalk(bs: seq<Block>, base: nat): map<nat, seq<bv8>>
  {
    if bs == [] then map[]
    else
      (if bs[0].isFree then map[] else map[base + H := bs[0].data])
      + AllocsWalk(bs[1..], base + H + bs[0].Size())
  }

  function Allocations(bs: seq<Block>): map<nat, seq<bv8>>
  {
    AllocsFrom(bs, 0)
  }

  /** No two neighbours in the list are both free. */
  predicate NoAdjacentFree(bs: seq<Block>)
  {
    forall j :: 0 <= j < |bs| - 1 ==> !(bs[j].isFree && bs[j + 1].isFree)
  }

  /** What heap_init makes of a region from sbrk: one free block behind one header, or
      nothing when the region cannot hold a header. */
  function Format(region: seq<bv8>): seq<Block>
  {
    if |region| < H then [] else [Block(true, region[H..])]
  }

  /** split_block: when the block exceeds `n` by more than a header, it keeps exactly `n`
      bytes and the rest behind a new header becomes a free block right after it. */
  function Split(bs: seq<Block>, i: nat, n: nat): seq<Block>
    requires i < |bs|
  {
    var b := bs[i];
    if b.Size() > n + H then
      bs[..i] + [Block(b.isFree, b.data[..n]), Block(true, b.data[n + H..])] + bs[i + 1..]
    else
      bs
  }

  /** The bytes where an absorbed header used to be. The program leaves the stale header
      there; its layout is not modelled, so the model reads zeros. */
  function HeaderGap(): seq<bv8>
  {
    seq(H, _ => 0 as bv8)
  }

  /** Block i absorbs its list successor: header and payload. */
  function MergeNext(bs: seq<Block>, i: nat): seq<Block>
    requires i + 1 < |bs|
  {
    bs[..i] + [Block(bs[i].isFree, bs[i].data + HeaderGap() + bs[i + 1].data)] + bs[i + 2..]
  }

  /** coalesce: merge with a free successor, then let a free predecessor absorb the block. */
  function Coalesce(bs: seq<Block>, i: nat): seq<Block>
    requires i < |bs|
  {
    var bs1 := if i + 1 < |bs| && bs[i + 1].isFree then MergeNext(bs, i) else bs;
    if 0 < i && bs1[i - 1].isFree then MergeNext(bs1, i - 1) else bs1
  }

  /** Number of merges coalesce performs on block i. */
  function Merges(bs: seq<Block>, i: nat): nat
    requires i < |bs|
  {
    (if i + 1 < |bs| && bs[i + 1].isFree then 1 else 0) + (if 0 < i && bs[i - 1].isFree then 1 else 0)
  }

  function SetFree(bs: seq<Block>, i: nat, free: bool): seq<Block>
    requires i < |bs|
  {
    bs[i := bs[i].(isFree := free)]
  }

  /** extend_heap after sbrk succeeded: the new region becomes a free block at the tail,
      which is then coalesced. */
  function Grow(bs: seq<Block>, region: seq<bv8>): seq<Block>
    requires |region| >= H
  {
    Coalesce(bs + [Block(true, region[H..])], |bs|)
  }

  /** The placement step of my_malloc: split the chosen block to `n` and mark it used. */
  function Place(bs: seq<Block>, k: nat, n: nat): seq<Block>
    requires k < |bs|
  {
    SetFree(Split(bs, k, n), k, false)
  }

  /** memset/memcpy into block k's payload: the first |prefix| bytes are replaced. */
  function Overwrite(bs: seq<Block>, k: nat, prefix: seq<bv8>): seq<Block>
    requires k < |bs| && |prefix| <= bs[k].Size()
  {
    bs[k := bs[k].(data := prefix + bs[k].data[|prefix|..])]
  }

  // ---------------------------------------------------------------------------
  // Footprint and addresses

  lemma {:induction false} FootprintConcat(a: seq<Block>, b: seq<Block>)
    ensures Footprint(a + b) == Footprint(a) + Footprint(b)
    decreases |a|
  {
    if a == [] {
      assert a + b == b;
    } else {
      assert (a + b)[1..] == a[1..] + b;
      FootprintConcat(a[1..], b);
    }
  }

  lemma {:induction false} FootprintOne(b: Block)
    ensures Footprint([b]) == H + b.Size()
  {
    assert [b][1..] == [];
    assert Footprint([]) == 0;
  }

  /** Footprint of a list cut around position i. */
  lemma {:induction false} FootprintAround(bs: seq<Block>, i: nat)
    requires i < |bs|
    ensures Footprint(bs) == Addr(bs, i) + H + bs[i].Size() + Footprint(bs[i + 1..])
  {
    assert bs == bs[..i] + [bs[i]] + bs[i + 1..];
    FootprintConcat(bs[..i] + [bs[i]], bs[i + 1..]);
    FootprintConcat(bs[..i], [bs[i]]);
    FootprintOne(bs[i]);
  }

  /** Consecutive blocks are laid out back to back. */
  lemma {:induction false} AddrNext(bs: seq<Block>, i: nat)
    requires i < |bs|
    ensures Addr(bs, i + 1) == Addr(bs, i) + H + bs[i].Size()
  {
    assert bs[..i + 1] == bs[..i] + [bs[i]];
    FootprintConcat(bs[..i], [bs[i]]);
    FootprintOne(bs[i]);
  }

  /** The payload of an earlier block ends before the header of a later one starts, so
      payloads never overlap and handles are distinct. */
  lemma {:induction false} PayloadsDisjoint(bs: seq<Block>, j: nat, k: nat)
    requires j < k < |bs|
    ensures Handle(bs, j) + bs[j].Size() <= Addr(bs, k) < Handle(bs, k)
    decreases k - j
  {
    AddrNext(bs, j);
    if j + 1 < k {
      PayloadsDisjoint(bs, j + 1, k);
    }
  }

  lemma {:induction false} HandleInjective(bs: seq<Block>, j: nat, k: nat)
    requires j < |bs| && k < |bs| && Handle(bs, j) == Handle(bs, k)
    ensures j == k
  {
    if j < k {
      PayloadsDisjoint(bs, j, k);
    } else if k < j {
      PayloadsDisjoint(bs, k, j);
    }
  }

  // ---------------------------------------------------------------------------
  // The allocation map

  /** Every handle of a list laid out from `base` lies inside the list, with its payload. */
  lemma {:induction false} AllocsBounds(bs: seq<Block>, base: nat, h: nat)
    requires h in AllocsFrom(bs, base)
    ensures base + H <= h && h + |AllocsFrom(bs, base)[h]| <= base + Footprint(bs)
    decreases |bs|
  {
    var rest := AllocsFrom(bs[1..], base + H + bs[0].Size());
    if h in rest {
      AllocsBounds(bs[1..], base + H + bs[0].Size(), h);
    }
  }

  /** A proof step, not a property of the allocator: map union is associative. Stated
      as a lemma so that the proofs that regroup unions stay small. */
  lemma {:induction false} MapUnionAssoc<K, V>(m1: map<K, V>, m2: map<K, V>, m3: map<K, V>)
    ensures (m1 + m2) + m3 == m1 + (m2 + m3)
  {
  }

  lemma {:induction false} AllocsConcat(a: seq<Block>, b: seq<Block>, base: nat)
    ensures AllocsFrom(a + b, base) == AllocsFrom(a, base) + AllocsFrom(b, base + Footprint(a))
    decreases |a|
  {
    if a == [] {
      assert a + b == b;
      assert AllocsFrom(a, base) == map[];
    } else {
      var hd := if a[0].isFree then map[] else map[base + H := a[0].data];
      var base' := base + H + a[0].Size();
      assert (a + b)[0] == a[0];
      assert (a + b)[1..] == a[1..] + b;
      assert AllocsFrom(a + b, base) == hd + AllocsFrom(a[1..] + b, base');
      AllocsConcat(a[1..], b, base');
      MapUnionAssoc(hd, AllocsFrom(a[1..], base'), AllocsFrom(b, base' + Footprint(a[1..])));
    }
  }

  /** The allocations of a single block. */
  lemma {:induction false} AllocsOne(b: Block, base: nat)
    ensures AllocsFrom([b], base) == if b.isFree then map[] else map[base + H := b.data]
  {
    assert [b][1..] == [];
    assert AllocsFrom([], base + H + b.Size()) == map[];
  }

  /** Every live allocation is the handle of a used block. */
  lemma {:induction false} AllocsHasBlock(bs: seq<Block>, base: nat, h: nat)
    requires h in AllocsFrom(bs, base)
    ensures exists i :: 0 <= i < |bs| && !bs[i].isFree && base + Addr(bs, i) + H == h
    decreases |bs|
  {
    var base' := base + H + bs[0].Size();
    if !bs[0].isFree && h == base + H {
      assert bs[..0] == [];
      assert base + Addr(bs, 0) + H == h;
    } else {
      assert h in AllocsFrom(bs[1..], base');
      AllocsHasBlock(bs[1..], base', h);
      var i :| 0 <= i < |bs[1..]| && !bs[1..][i].isFree && base' + Addr(bs[1..], i) + H == h;
      assert bs[..i + 1] == [bs[0]] + bs[1..][..i];
      FootprintConcat([bs[0]], bs[1..][..i]);
      FootprintOne(bs[0]);
      assert base + Addr(bs, i + 1) + H == h;
    }
  }

  /** The block behind a live handle (memory.c recovers it as `ptr - BLOCK_HEADER_SIZE`). */
  ghost function BlockOf(bs: seq<Block>, h: nat): (k: nat)
    requires h in Allocations(bs)
    ensures k < |bs| && !bs[k].isFree && Handle(bs, k) == h
    ensures Allocations(bs)[h] == bs[k].data
  {
    AllocsHasBlock(bs, 0, h);
    var k :| 0 <= k < |bs| && !bs[k].isFree && Addr(bs, k) + H == h;
    AllocsAt(bs, k);
    k
  }

  /** Two maps that differ only in a middle part holding at most the key `h`, which the
      outer parts do not hold, differ only at `h`. */
  lemma {:induction false} MapMiddle(A1: map<nat, seq<bv8>>, A2: map<nat, seq<bv8>>, P: map<nat, seq<bv8>>,
                                     M: map<nat, seq<bv8>>, M2: map<nat, seq<bv8>>, Q: map<nat, seq<bv8>>, h: nat)
    requires A1 == P + M + Q && A2 == P + M2 + Q
    requires h !in P && h !in Q && M.Keys <= {h} && M2.Keys <= {h}
    ensures A2 == if h in M2 then A1[h := M2[h]] else A1 - {h}
    ensures h in A1 <==> h in M
  {
  }

  /** A proof step, not a property of the allocator: a list laid out from equal bases
      has equal allocations. It lets EditMiddle name one base by two expressions. */
  lemma {:induction false} SameBase(bs: seq<Block>, b1: nat, b2: nat)
    requires b1 == b2
    ensures AllocsFrom(bs, b1) == AllocsFrom(bs, b2)
  {
  }

  /** A list edited in one place, `pre + mid + post` to `pre + mid2 + post`, where the two
      middles span the same bytes, keeps its footprint. */
  lemma {:induction false} EditFootprint(pre: seq<Block>, mid: seq<Block>, mid2: seq<Block>, post: seq<Block>)
    requires Footprint(mid) == Footprint(mid2)
    ensures Footprint(pre + mid2 + post) == Footprint(pre + mid + post)
  {
    FootprintConcat(pre + mid2, post);
    FootprintConcat(pre, mid2);
    FootprintConcat(pre + mid, post);
    FootprintConcat(pre, mid);
  }

  /** Nothing before an edit moves. */
  lemma {:induction false} EditAddrBefore(pre: seq<Block>, rest: seq<Block>, j: nat)
    requires j <= |pre|
    ensures Addr(pre + rest, j) == Addr(pre, j)
  {
    assert (pre + rest)[..j] == pre[..j];
  }

  /** Nothing after an edit moves. */
  lemma {:induction false} EditAddrAfter(pre: seq<Block>, mid: seq<Block>, mid2: seq<Block>, post: seq<Block>, t: nat)
    requires Footprint(mid) == Footprint(mid2) && t <= |post|
    ensures Addr(pre + mid2 + post, |pre| + |mid2| + t) == Addr(pre + mid + post, |pre| + |mid| + t)
  {
    assert (pre + mid2 + post)[..|pre| + |mid2| + t] == pre + mid2 + post[..t];
    assert (pre + mid + post)[..|pre| + |mid| + t] == pre + mid + post[..t];
    EditFootprint(pre, mid, mid2, post[..t]);
  }

  /** A proof step, not a property of the allocator: chains two map decompositions
      whose last parts start at the same base, for EditAllocations. */
  lemma {:induction false} AllocsChain(post: seq<Block>, b1: nat, b2: nat, A: map<nat, seq<bv8>>,
                                       X: map<nat, seq<bv8>>, P: map<nat, seq<bv8>>, M: map<nat, seq<bv8>>)
    requires b1 == b2 && A == X + AllocsFrom(post, b1) && X == P + M
    ensures A == P + M + AllocsFrom(post, b2)
  {
  }

  /** The allocations of `pre + mid + post` are those of the three parts, laid out one
      after the other. */
  lemma {:induction false} EditAllocations(pre: seq<Block>, mid: seq<Block>, post: seq<Block>)
    ensures Allocations(pre + mid + post) == Allocations(pre) + AllocsFrom(mid, Footprint(pre))
                                            + AllocsFrom(post, Footprint(pre) + Footprint(mid))
  {
    FootprintConcat(pre, mid);
    AllocsConcat(pre, mid, 0);
    AllocsConcat(pre + mid, post, 0);
    AllocsChain(post, 0 + Footprint(pre + mid), Footprint(pre) + Footprint(mid), Allocations(pre + mid + post),
                AllocsFrom(pre + mid, 0), Allocations(pre), AllocsFrom(mid, 0 + Footprint(pre)));
  }

  /** No handle of a list lies beyond the bytes it spans. */
  lemma {:induction false} NotInPrefix(pre: seq<Block>, h: nat)
    requires h > Footprint(pre)
    ensures h !in Allocations(pre)
  {
    if h in Allocations(pre) {
      AllocsBounds(pre, 0, h);
    }
  }

  /** No handle of a list laid out from `base` lies at or before `base`. */
  lemma {:induction false} NotInSuffix(post: seq<Block>, base: nat, h: nat)
    requires h <= base
    ensures h !in AllocsFrom(post, base)
  {
    if h in AllocsFrom(post, base) {
      AllocsBounds(post, base, h);
    }
  }

  /** A non-empty list spans at least one header. */
  lemma {:induction false} FootprintAtLeastHeader(bs: seq<Block>)
    requires bs != []
    ensures Footprint(bs) >= H
  {
  }

  /** The handle of the first block of `mid` is held by neither the list before it nor
      the list after it. */
  lemma {:induction false} HandleOutside(pre: seq<Block>, mid: seq<Block>, post: seq<Block>)
    requires mid != []
    ensures Footprint(pre) + H !in Allocations(pre)
    ensures Footprint(pre) + H !in AllocsFrom(post, Footprint(pre) + Footprint(mid))
  {
    NotInPrefix(pre, Footprint(pre) + H);
    FootprintAtLeastHeader(mid);
    NotInSuffix(post, Footprint(pre) + Footprint(mid), Footprint(pre) + H);
  }

  /** An edit of one spot, `mid` to `mid2`, where both span the same bytes and either can
      hold at most the allocation at that spot's handle `h`: only `h` changes. */
  lemma {:induction false} EditMiddle(pre: seq<Block>, mid: seq<Block>, mid2: seq<Block>, post: seq<Block>)
    requires mid != [] && Footprint(mid) == Footprint(mid2)
    requires AllocsFrom(mid, Footprint(pre)).Keys <= {Footprint(pre) + H}
    requires AllocsFrom(mid2, Footprint(pre)).Keys <= {Footprint(pre) + H}
    ensures var h, M2 := Footprint(pre) + H, AllocsFrom(mid2, Footprint(pre));
      Allocations(pre + mid2 + post) ==
        if h in M2 then Allocations(pre + mid + post)[h := M2[h]] else Allocations(pre + mid + post) - {h}
    ensures Footprint(pre) + H in Allocations(pre + mid + post) <==> Footprint(pre) + H in AllocsFrom(mid, Footprint(pre))
  {
    EditAllocations(pre, mid, post);
    EditAllocations(pre, mid2, post);
    HandleOutside(pre, mid, post);
    SameBase(post, Footprint(pre) + Footprint(mid2), Footprint(pre) + Footprint(mid));
    MapMiddle(Allocations(pre + mid + post), Allocations(pre + mid2 + post), Allocations(pre),
              AllocsFrom(mid, Footprint(pre)), AllocsFrom(mid2, Footprint(pre)),
              AllocsFrom(post, Footprint(pre) + Footprint(mid)), Footprint(pre) + H);
  }

  /** The list cut around block i. */
  lemma {:induction false} Around(bs: seq<Block>, i: nat)
    requires i < |bs|
    ensures bs == bs[..i] + [bs[i]] + bs[i + 1..]
    ensures Addr(bs, i) == Footprint(bs[..i])
  {
  }

  /** Replacing one block by another of the same size changes only that block's entry in
      the allocations: it appears if the new block is used and disappears if it is free. */
  lemma {:induction false} AllocsReplace(bs: seq<Block>, i: nat, b: Block)
    requires i < |bs| && b.Size() == bs[i].Size()
    ensures Footprint(bs[i := b]) == Footprint(bs)
    ensures Handle(bs[i := b], i) == Handle(bs, i)
    ensures Allocations(bs[i := b]) == if b.isFree then Allocations(bs) - {Handle(bs, i)}
                                       else Allocations(bs)[Handle(bs, i) := b.data]
  {
    var pre, post := bs[..i], bs[i + 1..];
    Around(bs, i);
    assert bs[i := b] == pre + [b] + post;
    FootprintOne(b);
    FootprintOne(bs[i]);
    EditFootprint(pre, [bs[i]], [b], post);
    EditAddrBefore(pre, [b] + post, i);
    AllocsOne(bs[i], Footprint(pre));
    AllocsOne(b, Footprint(pre));
    EditMiddle(pre, [bs[i]], [b], post);
  }

  /** A block's handle is a live allocation exactly when the block is used, and then it
      maps to the block's payload. */
  lemma {:induction false} AllocsAt(bs: seq<Block>, i: nat)
    requires i < |bs|
    ensures Handle(bs, i) in Allocations(bs) <==> !bs[i].isFree
    ensures !bs[i].isFree ==> Allocations(bs)[Handle(bs, i)] == bs[i].data
  {
    Around(bs, i);
    FootprintOne(bs[i]);
    EditAllocations(bs[..i], [bs[i]], bs[i + 1..]);
    AllocsOne(bs[i], Addr(bs, i));
    NotInPrefix(bs[..i], Handle(bs, i));
    NotInSuffix(bs[i + 1..], Addr(bs, i) + H + bs[i].Size(), Handle(bs, i));
  }

  /** memset/memcpy into a used payload: the first |prefix| bytes become `prefix`, the
      rest stay, and no other allocation changes. */
  lemma {:induction false} OverwriteEffect(bs: seq<Block>, k: nat, prefix: seq<bv8>)
    requires k < |bs| && !bs[k].isFree && |prefix| <= bs[k].Size()
    ensures var r := Overwrite(bs, k, prefix);
      && Footprint(r) == Footprint(bs)
      && |r| == |bs| && Handle(r, k) == Handle(bs, k)
      && !r[k].isFree && r[k].Size() == bs[k].Size()
      && r[k].data[..|prefix|] == prefix
      && r[k].data[|prefix|..] == bs[k].data[|prefix|..]
      && Allocations(r) == Allocations(bs)[Handle(bs, k) := r[k].data]
  {
    var b := bs[k].(data := prefix + bs[k].data[|prefix|..]);
    AllocsReplace(bs, k, b);
    assert b.data[..|prefix|] == prefix;
    assert b.data[|prefix|..] == bs[k].data[|prefix|..];
  }

  // ---------------------------------------------------------------------------
  // split_block

  /** When split_block cuts block i, the list gains exactly one free block right after it,
      and nothing else moves. */
  lemma {:induction false} SplitShape(bs: seq<Block>, i: nat, n: nat)
    requires i < |bs|
    ensures var r := Split(bs, i, n);
      if bs[i].Size() > n + H then
        && |r| == |bs| + 1
        && r[i].isFree == bs[i].isFree && r[i].Size() == n && r[i].data == bs[i].data[..n]
        && r[i + 1].isFree && r[i + 1].Size() == bs[i].Size() - n - H
        && (forall j :: 0 <= j < i ==> r[j] == bs[j])
        && (forall j :: i < j < |bs| ==> r[j + 1] == bs[j])
      else r == bs
  {
  }

  /** The two blocks a split makes of one span the same bytes, and only the first can be
      an allocation. */
  lemma {:induction false} SplitPieces(b: Block, n: nat, base: nat)
    requires b.Size() > n + H
    ensures Footprint([Block(b.isFree, b.data[..n]), Block(true, b.data[n + H..])]) == Footprint([b])
    ensures AllocsFrom([Block(b.isFree, b.data[..n]), Block(true, b.data[n + H..])], base) ==
            (if b.isFree then map[] else map[base + H := b.data[..n]])
    ensures AllocsFrom([b], base) == (if b.isFree then map[] else map[base + H := b.data])
  {
    var b1, b2 := Block(b.isFree, b.data[..n]), Block(true, b.data[n + H..]);
    assert [b1, b2] == [b1] + [b2];
    FootprintConcat([b1], [b2]);
    FootprintOne(b1);
    FootprintOne(b2);
    FootprintOne(b);
    AllocsConcat([b1], [b2], base);
    AllocsOne(b1, base);
    AllocsOne(b2, base + H + n);
    AllocsOne(b, base);
  }

  /** split_block only moves bytes from one block to another: the footprint is unchanged,
      the split block and every other block keep their addresses, and the new block starts
      `n` bytes after the split block's payload. */
  lemma {:induction false} SplitKeepsAddresses(bs: seq<Block>, i: nat, n: nat)
    requires i < |bs|
    ensures var r := Split(bs, i, n);
      && Footprint(r) == Footprint(bs)
      && (forall j :: 0 <= j <= i ==> Addr(r, j) == Addr(bs, j))
      && (bs[i].Size() > n + H ==>
            && Addr(r, i + 1) == Handle(bs, i) + n
            && (forall j :: i < j <= |bs| ==> Addr(r, j + 1) == Addr(bs, j)))
  {
    var r := Split(bs, i, n);
    if bs[i].Size() > n + H {
      var b := bs[i];
      var pre, post := bs[..i], bs[i + 1..];
      var two := [Block(b.isFree, b.data[..n]), Block(true, b.data[n + H..])];
      Around(bs, i);
      assert r == pre + two + post;
      SplitPieces(b, n, 0);
      EditFootprint(pre, [b], two, post);
      forall j | 0 <= j <= i ensures Addr(r, j) == Addr(bs, j) {
        assert r == pre + (two + post) && bs == pre + ([b] + post);
        EditAddrBefore(pre, two + post, j);
        EditAddrBefore(pre, [b] + post, j);
      }
      forall j | i < j <= |bs| ensures Addr(r, j + 1) == Addr(bs, j) {
        EditAddrAfter(pre, [b], two, post, j - i - 1);
      }
      assert r[..i + 1] == pre + [two[0]];
      FootprintConcat(pre, [two[0]]);
      FootprintOne(two[0]);
      assert Addr(r, |r|) == Addr(bs, |bs|);
      assert r[..|r|] == r && bs[..|bs|] == bs;
    }
  }

  /** Splitting a free block leaves the allocations alone; splitting a used one (a
      shrinking realloc) keeps its handle and truncates its payload to `n` bytes. */
  lemma {:induction false} SplitAllocations(bs: seq<Block>, i: nat, n: nat)
    requires i < |bs|
    ensures Allocations(Split(bs, i, n)) ==
      if bs[i].isFree || bs[i].Size() <= n + H then Allocations(bs)
      else Allocations(bs)[Handle(bs, i) := bs[i].data[..n]]
  {
    if bs[i].Size() > n + H {
      var b := bs[i];
      var pre, post := bs[..i], bs[i + 1..];
      var two := [Block(b.isFree, b.data[..n]), Block(true, b.data[n + H..])];
      Around(bs, i);
      assert Split(bs, i, n) == pre + two + post;
      SplitPieces(b, n, Footprint(pre));
      EditMiddle(pre, [b], two, post);
    }
  }

  // ---------------------------------------------------------------------------
  // Merging with the successor and coalesce

  lemma {:induction false} MergeShape(bs: seq<Block>, i: nat)
    requires i + 1 < |bs|
    ensures var r := MergeNext(bs, i);
      && |r| == |bs| - 1
      && r[i].isFree == bs[i].isFree
      && r[i].Size() == bs[i].Size() + H + bs[i + 1].Size()
      && r[i].data[..bs[i].Size()] == bs[i].data
      && (forall j :: 0 <= j < i ==> r[j] == bs[j])
      && (forall j :: i < j < |r| ==> r[j] == bs[j + 1])
  {
    var r := MergeNext(bs, i);
    assert r[i].data[..bs[i].Size()] == bs[i].data;
  }

  /** The merged block spans what its two parts spanned, and a free second part is no
      allocation. */
  lemma {:induction false} MergePieces(a: Block, b: Block, base: nat)
    ensures Footprint([Block(a.isFree, a.data + HeaderGap() + b.data)]) == Footprint([a, b])
    ensures b.isFree ==> AllocsFrom([a, b], base) == (if a.isFree then map[] else map[base + H := a.data])
    ensures AllocsFrom([Block(a.isFree, a.data + HeaderGap() + b.data)], base) ==
            (if a.isFree then map[] else map[base + H := a.data + HeaderGap() + b.data])
  {
    assert [a, b] == [a] + [b];
    FootprintConcat([a], [b]);
    FootprintOne(a);
    FootprintOne(b);
    FootprintOne(Block(a.isFree, a.data + HeaderGap() + b.data));
    AllocsConcat([a], [b], base);
    AllocsOne(a, base);
    AllocsOne(b, base + H + a.Size());
    AllocsOne(Block(a.isFree, a.data + HeaderGap() + b.data), base);
  }

  /** Merging moves bytes only: the footprint is unchanged and the surviving block keeps
      its address, as does every other block. */
  lemma {:induction false} MergeKeepsAddresses(bs: seq<Block>, i: nat)
    requires i + 1 < |bs|
    ensures var r := MergeNext(bs, i);
      && Footprint(r) == Footprint(bs)
      && (forall j :: 0 <= j <= i ==> Addr(r, j) == Addr(bs, j))
      && (forall j :: i < j <= |r| ==> Addr(r, j) == Addr(bs, j + 1))
  {
    var r := MergeNext(bs, i);
    var pre, post := bs[..i], bs[i + 2..];
    var two := [bs[i], bs[i + 1]];
    var m := [r[i]];
    assert bs == pre + two + post;
    assert r == pre + m + post;
    MergePieces(bs[i], bs[i + 1], 0);
    EditFootprint(pre, two, m, post);
    forall j | 0 <= j <= i ensures Addr(r, j) == Addr(bs, j) {
      assert r == pre + (m + post) && bs == pre + (two + post);
      EditAddrBefore(pre, m + post, j);
      EditAddrBefore(pre, two + post, j);
    }
    forall j | i < j <= |r| ensures Addr(r, j) == Addr(bs, j + 1) {
      EditAddrAfter(pre, two, m, post, j - i - 1);
    }
    assert Addr(r, |r|) == Addr(bs, |bs|);
    assert r[..|r|] == r && bs[..|bs|] == bs;
  }

  /** Absorbing a free successor: a free block stays out of the allocations, a used one
      (an in-place growing realloc) keeps its handle and now holds the merged payload. */
  lemma {:induction false} MergeAllocations(bs: seq<Block>, i: nat)
    requires i + 1 < |bs| && bs[i + 1].isFree
    ensures Allocations(MergeNext(bs, i)) ==
      if bs[i].isFree then Allocations(bs) else Allocations(bs)[Handle(bs, i) := MergeNext(bs, i)[i].data]
  {
    var r := MergeNext(bs, i);
    var pre, post := bs[..i], bs[i + 2..];
    var two := [bs[i], bs[i + 1]];
    var m := [r[i]];
    assert bs == pre + two + post;
    assert r == pre + m + post;
    MergePieces(bs[i], bs[i + 1], Footprint(pre));
    MergePieces(bs[i], bs[i + 1], 0);
    EditMiddle(pre, two, m, post);
  }

  /** coalesce on a free block frees nothing and allocates nothing: the allocations and
      the footprint are unchanged, and the list shrinks by one per merge. */
  lemma {:induction false} CoalesceEffect(bs: seq<Block>, i: nat)
    requires i < |bs| && bs[i].isFree
    ensures Footprint(Coalesce(bs, i)) == Footprint(bs)
    ensures Allocations(Coalesce(bs, i)) == Allocations(bs)
    ensures |Coalesce(bs, i)| == |bs| - Merges(bs, i)
  {
    var bs1 := if i + 1 < |bs| && bs[i + 1].isFree then MergeNext(bs, i) else bs;
    if i + 1 < |bs| && bs[i + 1].isFree {
      MergeKeepsAddresses(bs, i);
      MergeAllocations(bs, i);
      MergeShape(bs, i);
    }
    assert bs1[i].isFree && (0 < i ==> bs1[i - 1] == bs[i - 1]);
    if 0 < i && bs1[i - 1].isFree {
      MergeKeepsAddresses(bs1, i - 1);
      MergeAllocations(bs1, i - 1);
    }
  }

  /** Coalescing a free block whose neighbours are the only possible free pairs leaves no
      two adjacent free blocks. */
  lemma {:induction false} CoalesceNoAdjacentFree(bs: seq<Block>, i: nat)
    requires i < |bs| && bs[i].isFree
    requires forall j :: 0 <= j < |bs| - 1 && j != i && j + 1 != i ==> !(bs[j].isFree && bs[j + 1].isFree)
    ensures NoAdjacentFree(Coalesce(bs, i))
  {
    var bs1 := if i + 1 < |bs| && bs[i + 1].isFree then MergeNext(bs, i) else bs;
    AbsorbSuccessor(bs, i);
    AbsorbedByPredecessor(bs1, i);
  }

  /** The first half of coalesce: once block i has absorbed a free successor, the only
      possible free pair is block i with its predecessor. */
  lemma {:induction false} AbsorbSuccessor(bs: seq<Block>, i: nat)
    requires i < |bs| && bs[i].isFree
    requires forall j :: 0 <= j < |bs| - 1 && j != i && j + 1 != i ==> !(bs[j].isFree && bs[j + 1].isFree)
    ensures var bs1 := if i + 1 < |bs| && bs[i + 1].isFree then MergeNext(bs, i) else bs;
      && i < |bs1| && bs1[i].isFree
      && forall j :: 0 <= j < |bs1| - 1 && j + 1 != i ==> !(bs1[j].isFree && bs1[j + 1].isFree)
  {
    if i + 1 < |bs| && bs[i + 1].isFree {
      var bs1 := MergeNext(bs, i);
      MergeShape(bs, i);
      forall j | 0 <= j < |bs1| - 1 && j + 1 != i ensures !(bs1[j].isFree && bs1[j + 1].isFree) {
        if j == i {
          // the successor of the merged block is the old i + 2, which cannot be free
          assert bs1[j + 1] == bs[i + 2];
        } else if j < i {
          assert bs1[j] == bs[j] && bs1[j + 1] == bs[j + 1];
        } else {
          assert bs1[j] == bs[j + 1] && bs1[j + 1] == bs[j + 2];
        }
      }
    }
  }

  /** The second half of coalesce: when block i is free and the only possible free pair
      is i with its predecessor, letting the predecessor absorb it leaves no free pair. */
  lemma {:induction false} AbsorbedByPredecessor(bs: seq<Block>, i: nat)
    requires i < |bs| && bs[i].isFree
    requires forall j :: 0 <= j < |bs| - 1 && j + 1 != i ==> !(bs[j].isFree && bs[j + 1].isFree)
    ensures NoAdjacentFree(if 0 < i && bs[i - 1].isFree then MergeNext(bs, i - 1) else bs)
  {
    if 0 < i && bs[i - 1].isFree {
      var r := MergeNext(bs, i - 1);
      MergeShape(bs, i - 1);
      forall j | 0 <= j < |r| - 1 ensures !(r[j].isFree && r[j + 1].isFree) {
        if j + 1 == i - 1 {
          assert r[j] == bs[j] && r[j + 1].isFree == bs[i - 1].isFree;
        } else if j == i - 1 {
          assert r[j + 1] == bs[i + 1];
        } else if j < i - 1 {
          assert r[j] == bs[j] && r[j + 1] == bs[j + 1];
        } else {
          assert r[j] == bs[j + 1] && r[j + 1] == bs[j + 2];
        }
      }
    } else {
      forall j | 0 <= j < |bs| - 1 ensures !(bs[j].isFree && bs[j + 1].isFree) {
        if j + 1 == i {
          assert !bs[i - 1].isFree;
        }
      }
    }
  }
}
