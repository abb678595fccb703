/** The heap block allocator (allchblk.c, with and without USE_MUNMAP, and GC_add_to_heap of alloc.c).  Sizes and
 *  addresses are counted in heap blocks; headers are kept by the address of the block they describe.
 */
module Allocator {
  import opened Common
  import opened HashChains
  import opened FreeLists
  import opened HeapBlocks
  import opened BlackList
  import opened Mapping

  // The number of heap blocks whose size in bytes still is a positive signed word.
  const MAX_BLOCKS: nat := 0x8_0000_0000_0000
  // The end of the address space.
  const MEMORY_END: nat := 0x10_0000_0000_0000
  // Largest pointer-free object placed on a black listed block.
  const MAX_BLACK_LIST_ALLOC: nat := 2
  const MAX_HEAP_SECTS: nat := 1024

  // Free block a and its successor become one when one of them is freed.
  ghost predicate Joins(size: map<Addr, nat>, free: set<Addr>, away: set<Addr>, a: Addr) {
    && a in size && a in free && a !in away
    && var n := a + size[a]; n in size && n in free && n !in away && size[a] + size[n] < MAX_BLOCKS
  }

  // Sizes and free blocks once free block h has been merged with its successor, if it can be.
  ghost function NextSizes(size: map<Addr, nat>, free: set<Addr>, away: set<Addr>, h: Addr): map<Addr, nat> {
    if Joins(size, free, away, h) then Join(size, h) else size
  }

  ghost function NextFree(size: map<Addr, nat>, free: set<Addr>, away: set<Addr>, h: Addr): set<Addr> {
    if Joins(size, free, away, h) then free - {h + size[h]} else free
  }

  // The same for its predecessor; cur is the block that h is part of then.
  ghost predicate PrevMerged(size0: map<Addr, nat>, free0: set<Addr>, away: set<Addr>, h: Addr,
                             size: map<Addr, nat>, free: set<Addr>, cur: Addr) {
    if cur != h then
      && Joins(size0, free0, away, cur) && cur + size0[cur] == h
      && size == Join(size0, cur) && free == free0 - {h}
    else
      && size == size0 && free == free0
      && forall p: Addr :: p + Sz(size0, p) == h && p != h ==> !Joins(size0, free0, away, p)
  }

  // Block h, free now, has been merged with both neighbours.
  ghost predicate BothMerged(size0: map<Addr, nat>, free0: set<Addr>, away: set<Addr>, h: Addr,
                             size: map<Addr, nat>, free: set<Addr>, cur: Addr) {
    PrevMerged(NextSizes(size0, free0, away, h), NextFree(size0, free0, away, h), away, h, size, free, cur)
  }

  lemma IsPrevMerged(size0: map<Addr, nat>, free0: set<Addr>, away: set<Addr>, h: Addr, prev: Addr)
    requires prev in size0 && prev in free0 && prev !in away && prev + size0[prev] == h && prev != h
    requires h in size0 && h in free0 && h !in away && size0[h] + size0[prev] < MAX_BLOCKS
    ensures PrevMerged(size0, free0, away, h, Join(size0, prev), free0 - {h}, prev)
  {
  }

  lemma NotPrevMerged(size0: map<Addr, nat>, free0: set<Addr>, away: set<Addr>, pages: set<nat>, h: Addr, prev: Addr)
    requires Tiled(size0, pages) && h in size0
    requires if prev == 0 then LeftClear(size0, free0, h)
             else prev in size0 && prev + size0[prev] == h && prev != h
                  && (prev in away || size0[h] + size0[prev] >= MAX_BLOCKS)
    ensures PrevMerged(size0, free0, away, h, size0, free0, h)
  {
    forall p: Addr | p + Sz(size0, p) == h && p != h ensures !Joins(size0, free0, away, p) {
      if Joins(size0, free0, away, p) && prev != 0 { OneEndsAt(size0, pages, p, prev); }
    }
  }

  // Two blocks do not end at the same place.
  lemma OneEndsAt(size: map<Addr, nat>, pages: set<nat>, a: Addr, b: Addr)
    requires Tiled(size, pages) && a in size && b in size && a + size[a] == b + size[b]
    ensures a == b
  {
  }

  // The pages from h to end are pointer-free blocks of one page in use.
  ghost predicate Singles(size: map<Addr, nat>, uses: map<Addr, Use>, h: Addr, end: Addr) {
    forall y: Addr :: h <= y < end ==>
      y in size && size[y] == 1 && y in uses && uses[y] == Use(HBLKSIZE, PtrFree, false)
  }

  // The pages from h to x are, and the rest up to end is one such block.
  ghost predicate Paged(size: map<Addr, nat>, uses: map<Addr, Use>, h: Addr, x: Addr, end: Addr) {
    && Singles(size, uses, h, x)
    && x in size && x in uses && x + size[x] == end && uses[x] == Use(size[x] * HBLKSIZE, PtrFree, false)
  }

  lemma PagedNone(size: map<Addr, nat>, uses: map<Addr, Use>, h: Addr)
    requires h in size && h in uses && uses[h] == Use(size[h] * HBLKSIZE, PtrFree, false)
    ensures Paged(size, uses, h, h, h + size[h])
  {
  }

  lemma PagedMore(size: map<Addr, nat>, uses: map<Addr, Use>, h: Addr, x: Addr, end: Addr, rest: Use)
    requires Paged(size, uses, h, x, end) && size[x] > 1 && rest == Use((size[x] - 1) * HBLKSIZE, PtrFree, false)
    ensures Paged(size[x := 1][x + 1 := size[x] - 1], uses[x := Use(HBLKSIZE, PtrFree, false)][x + 1 := rest], h,
                  x + 1, end)
  {
  }

  lemma PagedAll(size: map<Addr, nat>, uses: map<Addr, Use>, h: Addr, x: Addr, end: Addr)
    requires Paged(size, uses, h, x, end)
    ensures x in size && (size[x] <= 1 ==> Singles(size, uses, h, end))
  {
  }

  // What setup_header records of a block in use; the size is that of its objects, in bytes.
  datatype Use = Use(sz: nat, kind: Kind, ignoreOffPage: bool)

  // OBJ_SZ_TO_BLOCKS
  function Blocks(sz: nat): nat {
    (sz + HBLKSIZE - 1) / HBLKSIZE
  }

  // The blocks in use have the size their objects need.
  ghost predicate Fits(size: map<Addr, nat>, free: set<Addr>, uses: map<Addr, Use>) {
    uses.Keys == size.Keys - free && forall a <- uses :: a in size && size[a] == Blocks(uses[a].sz)
  }

  lemma FitsJoin(size: map<Addr, nat>, free: set<Addr>, uses: map<Addr, Use>, h: Addr)
    requires Fits(size, free, uses) && h in size && h in free && h + size[h] in size && h + size[h] in free
    requires size[h] > 0 && size[h + size[h]] > 0
    ensures Fits(Join(size, h), free - {h + size[h]}, uses)
  {
    hide Blocks;
    assert Join(size, h).Keys == size.Keys - {h + size[h]};
  }

  lemma FitsFree(size: map<Addr, nat>, free: set<Addr>, uses: map<Addr, Use>, h: Addr)
    requires Fits(size, free, uses) && h in size && h !in free
    ensures Fits(size, free + {h}, uses - {h})
  {
    hide Blocks;
  }

  lemma PutBack(s: set<Addr>, h: Addr)
    requires h in s
    ensures s + {h} == s && (s - {h}) + {h} == s && s - {h} <= s
  {
  }

  // The free blocks have the sizes they had.
  ghost predicate SameFree(size0: map<Addr, nat>, size: map<Addr, nat>, free: set<Addr>) {
    forall a <- free :: a in size && a in size0 && size[a] == size0[a]
  }

  lemma SameFreeTrans(size0: map<Addr, nat>, size1: map<Addr, nat>, size2: map<Addr, nat>, free1: set<Addr>,
                      free2: set<Addr>)
    requires SameFree(size0, size1, free1) && SameFree(size1, size2, free2) && free2 <= free1
    ensures SameFree(size0, size2, free2)
  {
  }

  // The free blocks but h stay free and keep their sizes.
  ghost predicate Others(size0: map<Addr, nat>, free0: set<Addr>, size: map<Addr, nat>, free: set<Addr>, h: Addr) {
    forall a <- free0 :: a != h ==> a in free && a in size && a in size0 && size[a] == size0[a]
  }

  lemma OthersTrans(size0: map<Addr, nat>, free0: set<Addr>, size1: map<Addr, nat>, free1: set<Addr>,
                    size2: map<Addr, nat>,
                    free2: set<Addr>, h: Addr, x: Addr)
    requires Others(size0, free0, size1, free1, h) && Others(size1, free1, size2, free2, x) && (x == h || x !in free0)
    ensures Others(size0, free0, size2, free2, h)
  {
  }

  // The blocks without memory stay free and keep their sizes.
  ghost predicate AwayKept(size0: map<Addr, nat>, size: map<Addr, nat>, free: set<Addr>, away: set<Addr>) {
    forall a <- away :: a in free && a in size && a in size0 && size[a] == size0[a]
  }

  lemma AwayTrans(size0: map<Addr, nat>, size1: map<Addr, nat>, size2: map<Addr, nat>, free1: set<Addr>,
                  free2: set<Addr>, away: set<Addr>)
    requires AwayKept(size0, size1, free1, away) && AwayKept(size1, size2, free2, away)
    ensures AwayKept(size0, size2, free2, away)
  {
  }

  lemma AwayStays(size0: map<Addr, nat>, size: map<Addr, nat>, free: set<Addr>, away: set<Addr>)
    requires AwayKept(size0, size, free, away)
    ensures away <= free
  {
  }

  lemma AwayJoin(size: map<Addr, nat>, free: set<Addr>, away: set<Addr>, h: Addr)
    requires h in size && h + size[h] in size && away <= free <= size.Keys && h !in away && h + size[h] !in away
    ensures AwayKept(size, Join(size, h), free - {h + size[h]}, away)
  {
  }

  // A collection number as headers record it.
  function Short(gcNo: nat): nat {
    gcNo % 0x1_0000
  }

  // No block in use is affected.
  ghost predicate Kept(uses0: map<Addr, Use>, uses: map<Addr, Use>) {
    forall a <- uses0 :: a in uses && uses[a] == uses0[a]
  }

  lemma KeptSelf(u: map<Addr, Use>)
    ensures Kept(u, u)
  {
  }

  lemma KeptTrans(u0: map<Addr, Use>, u1: map<Addr, Use>, u2: map<Addr, Use>)
    requires Kept(u0, u1) && Kept(u1, u2)
    ensures Kept(u0, u2)
  {
  }

  lemma NotKept(u0: map<Addr, Use>, u: map<Addr, Use>, x: Addr)
    requires Kept(u0, u) && x !in u
    ensures x !in u0
  {
  }

  lemma KeptAdd(u0: map<Addr, Use>, u: map<Addr, Use>, x: Addr, use: Use)
    requires Kept(u0, u) && x !in u0
    ensures Kept(u0, u[x := use])
  {
  }

  // Two headers change, the rest stays.
  lemma SameButTwo(size: map<Addr, nat>, a: Addr, b: Addr, merged: map<Addr, nat>)
    requires a in size && b in size && merged == (size - {b})[a := size[a] + size[b]]
    ensures forall x :: x in size && x != b && x != a ==> x in merged && merged[x] == size[x]
  {
  }

  // What becomes of a free block under consideration.
  datatype Choice = Take(start: Addr) | Skip | Drop

  // What the search did with it.
  datatype Step = Took(at: Addr) | Next | Dropped

  // A block of sz blocks cannot serve.
  predicate Unfit(sz: nat, need: nat, maySplit: bool) {
    sz < need || (!maySplit && sz != need)
  }

  // Block h has left list n, the order of the others is as before.
  ghost predicate Removed(lists0: seq<seq<Addr>>, lists: seq<seq<Addr>>, n: nat, h: Addr) {
    exists j :: n < |lists0| && 0 <= j < |lists0[n]| && lists0[n][j] == h && lists == lists0[n := Without(lists0[n], j)]
  }

  lemma IsRemoved(lists0: seq<seq<Addr>>, lists: seq<seq<Addr>>, n: nat, h: Addr, j: nat)
    requires n < |lists0| && j < |lists0[n]| && lists0[n][j] == h && lists == lists0[n := Without(lists0[n], j)]
    ensures Removed(lists0, lists, n, h)
  {
  }

  // No free block is large enough.
  ghost predicate NoFit(size: map<Addr, nat>, free: set<Addr>, need: nat) {
    forall h <- free :: h in size && size[h] < need
  }

  // How far the heap has changed in a search: some pages were dropped.
  ghost predicate Progress(size0: map<Addr, nat>, free0: set<Addr>, uses0: map<Addr, Use>,
                           size: map<Addr, nat>, free: set<Addr>, uses: map<Addr, Use>, pages: set<nat>,
                           dropped: set<nat>) {
    && free <= free0 && SameFree(size0, size, free) && Kept(uses0, uses)
    && dropped <= FreePages(size0, free0, pages)
    && FreePages(size, free, pages) == FreePages(size0, free0, pages) - dropped
  }

  // The measure of the search: a block was dropped, or the place in the list has advanced.
  ghost predicate Smaller(free1: set<Addr>, lists1: seq<seq<Addr>>, j1: nat, free: set<Addr>, lists: seq<seq<Addr>>,
                          j: nat, n: nat) {
    || |free| < |free1|
    || (free == free1 && lists == lists1 && n < |lists| && j1 < j <= |lists[n]|)
  }

  class Heap {
    const fl: FreeLists
    const bl: BlackLists
    const findLeak: bool           // GC_find_leak
    const unmapping: bool          // USE_MUNMAP
    const mem: Memory
    var away: set<Addr>            // headers marked WAS_UNMAPPED
    var last: map<Addr, nat>       // hb_last_reclaimed
    var gcNo: nat                  // GC_gc_no
    var blLimit: nat               // GC_black_list_spacing
    var drops: nat                 // blocks that were candidates for dropping
    var size: map<Addr, nat>       // headers: the number of blocks described
    var free: set<Addr>            // headers marked FREE_BLK
    var uses: map<Addr, Use>
    var freeBytes: seq<nat>        // GC_free_bytes
    var largeFree: nat             // GC_large_free_bytes
    var heapSize: nat              // GC_heapsize
    var sects: nat                 // GC_n_heap_sects
    ghost var pages: set<nat>      // all pages of the heap
    ghost var on: set<Addr>        // blocks on free lists
    ghost var odd: map<Addr, nat>  // a block on a list not for its size

    // The free lists are well linked, hold the blocks in `on` where they belong, and are counted right.
    ghost predicate Listed()
      reads `size, `freeBytes, `on, `odd, fl
    {
      fl.Valid() && Binned(size, odd, on, fl.lists) && Counted(size, fl.lists, freeBytes)
    }

    // Every page of the heap belongs to one block, free or in use.
    ghost predicate Divided()
      reads `size, `free, `uses, `pages
    {
      Tiled(size, pages) && free <= size.Keys && Fits(size, free, uses)
    }

    // No two free blocks are neighbours, unless the heap is too large for merging them or memory is given back.
    ghost predicate Coalesced()
      reads `size, `free, `pages
    {
      Merging() ==> NoAdjacent(size, free)
    }

    // All free neighbours are merged at once.
    ghost predicate Merging()
      reads `pages
    {
      !unmapping && |pages| < MAX_BLOCKS
    }

    // Without USE_MUNMAP all blocks have memory.
    ghost predicate Plain()
      reads `away
    {
      unmapping || away == {}
    }

    // GC_unmapped_bytes counts the whole pages of the free blocks marked as unmapped, which are the pages without
    // memory.
    ghost predicate Mapped()
      reads `size, `free, `away, mem
    {
      Marked(size, free, away, mem.page, mem.unmapped) && mem.unmappedBytes == mem.page * |mem.unmapped|
    }

    ghost predicate Sound()
      reads `size, `free, `uses, `freeBytes, `largeFree, `pages, `on, `odd, `away, fl
    {
      && Listed() && Divided() && Coalesced() && Plain()
      && on == free && odd == map[]
      && largeFree == |FreePages(size, free, pages)|
    }

    ghost predicate Valid()
      reads `size, `free, `uses, `freeBytes, `largeFree, `heapSize, `pages, `on, `odd, `away, fl, mem
    {
      Sound() && Mapped() && heapSize == |pages|
    }

    // hb_last_reclaimed; it is set when the header is installed.
    function LastTouched(h: Addr): nat
      reads `last
    {
      if h in last then last[h] else 0
    }

    // All pages with bytes of a block in use have memory.
    lemma InUseHasMemory(a: Addr, k: nat)
      requires Valid() && a in uses
      requires k * mem.page < (a + size[a]) * HBLKSIZE && a * HBLKSIZE < (k + 1) * mem.page
      ensures k !in mem.unmapped
    {
      UsedHasMemory(size, pages, free, away, mem.page, mem.unmapped, a, k);
    }

    // Nothing of the heap is lost (the check of checksums.c:160-175).
    lemma Conserved()
      requires Valid()
      ensures |UsedPages(size, free, pages)| + largeFree == heapSize
    {
      UsedPlusFree(size, free, pages);
    }

    // As usual, except that free block h is on no list.
    ghost predicate Loose(h: Addr)
      reads `size, `free, `uses, `freeBytes, `pages, `on, `odd, fl
    {
      Listed() && Divided() && odd == map[] && h in free && on == free - {h}
    }

    constructor (lists: BlackLists, leaks: bool, limit: nat, unmaps: bool, pageSize: nat)
      requires pageSize > 0
      ensures Valid() && pages == {} && heapSize == 0 && fresh(fl) && fresh(mem)
      ensures bl == lists && findLeak == leaks && blLimit == limit && unmapping == unmaps && mem.page == pageSize
      ensures drops == 0 && last == map[] && gcNo == 0 && sects == 0
    {
      bl, findLeak, blLimit, drops, unmapping := lists, leaks, limit, 0, unmaps;
      mem := new Memory(pageSize);
      away, last, gcNo := {}, map[], 0;
      fl := new FreeLists(N_HBLK_FLS + 1);
      size, free, uses := map[], {}, map[];
      freeBytes := seq(N_HBLK_FLS + 1, i => 0);
      largeFree, heapSize, sects := 0, 0, 0;
      pages, on, odd := {}, {}, map[];
      new;
      hide Binned, Counted, Tiled, FreePages, Fits, NoAdjacent, Marked;
      NoBlocks(mem.page);
    }

    // GC_remove_from_fl for a block on its list, the nth.
    method RemoveFromFl(h: Addr, n: nat)
      requires Listed() && h in on && n == ListOf(size, odd, h)
      modifies fl, `freeBytes, `on
      ensures Listed() && on == old(on) - {h}
      ensures Removed(old(fl.lists), fl.lists, n, h)
    {
      ghost var j := ListIndex(size, on, odd, fl.lists, h);
      fl.HeadOf(n);
      BinnedRemove(size, on, odd, fl.lists, freeBytes, n, j);
      hide Binned, Counted, Threaded, Bin;
      ghost var l0 := fl.lists;
      fl.Remove(n, h, j);
      freeBytes := freeBytes[n := freeBytes[n] - size[h]];
      on := on - {h};
      assert fl.lists == l0[n := Without(l0[n], j)];
      IsRemoved(l0, fl.lists, n, h, j);
    }

    // GC_add_to_fl
    method AddToFl(h: Addr)
      requires Listed() && h in size && h != 0 && h !in on && h !in odd
      modifies fl, `freeBytes, `on, `free
      ensures Listed() && on == old(on) + {h} && free == old(free) + {h}
    {
      var index := Bin(size[h]);
      BinMonotone(size[h], size[h]);
      assert index < |fl.lists| && index < |freeBytes|;
      BinnedAdd(size, on, odd, fl.lists, freeBytes, h, index);
      hide Binned, Counted, Threaded, Bin;
      ghost var l0 := fl.lists;
      fl.AddFront(index, h);
      freeBytes := freeBytes[index := freeBytes[index] + size[h]];
      on := on + {h};
      free := free + {h};
      assert fl.lists == l0[index := [h] + l0[index]];
    }

    // GC_free_block_ending_at
    method FreeBlockEndingAt(h: Addr) returns (p: Addr)
      requires h > 0
      ensures p != 0 ==> p in free && p in size && p + size[p] == h
      ensures p == 0 && Tiled(size, pages) ==> forall q :: q in free && q in size ==> q + size[q] != h
    {
      p := h - 1;
      while p > 0 && p !in size
        invariant p < h
        invariant forall q :: q in size && p < q < h ==> false
      {
        p := p - 1;
      }
      if p == 0 || !(p in free && p + size[p] == h) {
        p := 0;
      }
    }

    // The part of GC_freehblk that merges a block with a free successor.
    method MergeNext(h: Addr)
      requires Loose(h) && h in size && Plain() && away <= free && h !in away
      modifies fl, `freeBytes, `on, `free, `size
      ensures Loose(h) && h in size && FreePages(size, free, pages) == FreePages(old(size), old(free), pages)
      ensures size == NextSizes(old(size), old(free), away, h) && free == NextFree(old(size), old(free), away, h)
      ensures old(LeftClear(size, free, h)) ==> LeftClear(size, free, h)
      ensures AwayKept(old(size), size, free, away) && size[h] >= old(size)[h]
      ensures forall a :: a in old(free) && a in old(size) && a < h ==>
                a in free && a in size && size[a] == old(size)[a]
      ensures Merging() && old(NoAdjacent(size, free - {h})) ==>
                NoAdjacent(size, free - {h}) && RightClear(size, free, h)
    {
      hide AwayKept, Binned, Counted, Threaded, Tiled, FreePages, Fits, NoAdjacent, LeftClear, RightClear, Join, Bin;
      var next := h + size[h];
      LooseHere(h);
      if next in size && next in free && next !in away && size[h] + size[next] < MAX_BLOCKS {
        AwayJoin(size, free, away, h);
        JoinClear(size, free, pages, h);
        Absorb(h, next);
      } else {
        NextClear(h);
      }
    }

    lemma LooseHere(h: Addr)
      requires Loose(h) && h in size
      ensures size[h] > 0 && h + size[h] != h && free <= size.Keys
      ensures away <= free ==> AwayKept(size, size, free, away)
      ensures h + size[h] in size ==> h in Join(size, h) && Join(size, h)[h] >= size[h]
      ensures h + size[h] in size && h + size[h] in free ==>
                forall a :: a in free && a in size && a < h ==>
                  a in Join(size, h) && Join(size, h)[a] == size[a] && a != h + size[h]
    {
    }

    // Without merging there is no free successor, provided the heap is not too large.
    lemma NextClear(h: Addr)
      requires Divided() && h in size && Plain()
      requires var n := h + size[h]; !(n in size && n in free && n !in away && size[h] + size[n] < MAX_BLOCKS)
      ensures Merging() ==> RightClear(size, free, h)
    {
      if h + size[h] in free {
        TwoFit(size, pages, h, h + size[h]);
      }
    }

    lemma SameElsewhere(h: Addr, n: Addr, merged: map<Addr, nat>)
      requires Listed() && h !in on && n !in on
      requires forall a :: a in size && a != h && a != n ==> a in merged && merged[a] == size[a]
      ensures forall a <- on :: a in size && a in merged && merged[a] == size[a]
    {
    }

    // Take free block n off its list and append it to block h.
    method Absorb(h: Addr, n: Addr)
      requires Listed() && Divided()
      requires odd == map[] && h in free && n in free && h in size && n in size && h + size[h] == n
      requires n in on && h !in on
      modifies fl, `freeBytes, `on, `free, `size
      ensures Listed() && Divided() && on == old(on) - {n} && free == old(free) - {n} && size == Join(old(size), h)
      ensures FreePages(size, free, pages) == FreePages(old(size), old(free), pages)
    {
      hide Binned, Counted, Tiled, FreePages, Threaded, Bin, Fits, Join;
      TwoBlocks(size, pages, h);
      TiledJoin(size, pages, h);
      FreeJoin(size, free, pages, h);
      FitsJoin(size, free, uses, h);
      var merged := (size - {n})[h := size[h] + size[n]];
      SameButTwo(size, h, n, merged);
      RemoveFromFl(n, Bin(size[n]));
      SameElsewhere(h, n, merged);
      BinnedFrame(size, merged, odd, on, fl.lists, freeBytes);
      size := merged;
      free := free - {n};
    }

    // The part that merges block h with a free predecessor.
    method MergePrev(prev: Addr, h: Addr)
      requires Loose(h) && h in size && prev in free && prev in size && prev + size[prev] == h && prev != h
      requires away <= free && h !in away && prev !in away
      modifies fl, `freeBytes, `on, `free, `size, `last
      ensures AwayKept(old(size), size, free, away) && last == old(last)[prev := Short(gcNo)]
      ensures size == Join(old(size), prev) && free == old(free) - {h}
      ensures prev in size && prev < h < prev + size[prev]
      ensures Loose(prev) && prev in size && FreePages(size, free, pages) == FreePages(old(size), old(free), pages)
      ensures old(NoAdjacent(size, free - {h}) && RightClear(size, free, h)) ==> NoAdjacent(size, free)
    {
      hide Binned, Counted, Tiled, FreePages, Threaded, Bin, Fits, NoAdjacent, RightClear;
      PrevJoin(prev, h);
      AwayJoin(size, free, away, prev);
      var merged := (size - {h})[prev := size[prev] + size[h]];
      SameButTwo(size, prev, h, merged);
      assert merged == Join(size, prev);
      hide Join, AwayKept;
      RemoveFromFl(prev, Bin(size[prev]));
      SameElsewhere(h, prev, merged);
      BinnedFrame(size, merged, odd, on, fl.lists, freeBytes);
      size := merged;
      free := free - {h};
      last := last[prev := Short(gcNo)];
      assert on == free - {prev};
    }

    lemma PrevJoin(prev: Addr, h: Addr)
      requires Divided() && h in free && h in size && prev in free && prev in size && prev + size[prev] == h
      ensures size[prev] > 0 && size[h] > 0 && free <= size.Keys
      ensures Tiled(Join(size, prev), pages) && Fits(Join(size, prev), free - {h}, uses)
      ensures free - {h} <= Join(size, prev).Keys
      ensures FreePages(Join(size, prev), free - {h}, pages) == FreePages(size, free, pages)
      ensures NoAdjacent(size, free - {h}) && RightClear(size, free, h) ==> NoAdjacent(Join(size, prev), free - {h})
    {
      TiledJoin(size, pages, prev);
      FreeJoin(size, free, pages, prev);
      FitsJoin(size, free, uses, prev);
      hide FreePages, Fits;
      if NoAdjacent(size, free - {h}) && RightClear(size, free, h) {
        JoinLeft(size, free, pages, prev, h);
      }
    }

    // Free block h is on no list yet, and may have free neighbours.
    ghost predicate Freeing(h: Addr)
      reads `size, `free, `uses, `freeBytes, `pages, `on, `odd, fl
    {
      Loose(h) && h in size && (Merging() ==> NoAdjacent(size, free - {h}))
    }

    // prev is the free block ending at h, or 0 if there is none.
    ghost predicate Precedes(prev: Addr, h: Addr)
      reads `size, `free
    {
      if prev == 0 then LeftClear(size, free, h) else prev in free && prev in size && prev + size[prev] == h && prev < h
    }

    // Free block h has no free neighbours.
    ghost predicate Merged(h: Addr)
      reads `size, `free, `uses, `freeBytes, `pages, `on, `odd, fl
    {
      Loose(h) && h in size && Coalesced()
    }

    // GC_freehblk without the check for double freeing.  cur is the block that the pages then belong to.
    method Release(h: Addr) returns (cur: Addr)
      requires Sound() && Mapped() && h in size && h !in free
      modifies fl, `freeBytes, `on, `free, `size, `uses, `largeFree, `last
      ensures Sound() && Mapped()
      ensures FreePages(size, free, pages) == FreePages(old(size), old(free), pages) + Run(h, old(size)[h])
      ensures uses == old(uses) - {h}
      ensures Touched(h, cur) && last == old(last)[h := Short(gcNo)][cur := Short(gcNo)]
      ensures BothMerged(old(size), old(free) + {h}, away, h, size, free, cur)
    {
      hide *;
      var n := size[h];
      AwayFree(h);
      ghost var size0, free0 := size, free + {h};
      Unuse(h);
      var prev := FindPrev(h);
      cur := Merge(h, prev);
      Relist(cur, n);
      StillMapped(size0, free0);
      TouchedNow(cur);
      IsTouched(h, cur);
    }

    // The free block a with page h was last touched in the present collection.
    ghost predicate Touched(h: Addr, a: Addr)
      reads `size, `free, `last, `gcNo
    {
      a in free && a in size && a <= h < a + size[a] && LastTouched(a) == Short(gcNo)
    }

    lemma IsTouched(h: Addr, a: Addr)
      requires a in free && a in size && a <= h < a + size[a] && LastTouched(a) == Short(gcNo)
      ensures Touched(h, a)
    {
    }

    lemma TouchedNow(a: Addr)
      ensures a in last && last[a] == Short(gcNo) ==> LastTouched(a) == Short(gcNo)
    {
    }

    lemma AwayFree(h: Addr)
      requires Mapped() && h !in free
      ensures away <= free + {h} && h !in away && mem.unmappedBytes == mem.page * |mem.unmapped|
      ensures Marked(size, free + {h}, away, mem.page, mem.unmapped)
    {
    }

    lemma StillMapped(size0: map<Addr, nat>, free0: set<Addr>)
      requires Marked(size0, free0, away, mem.page, mem.unmapped) && mem.unmappedBytes == mem.page * |mem.unmapped|
      requires AwayKept(size0, size, free, away)
      ensures Mapped()
    {
      MarkedFrame(size0, free0, size, free, away, mem.page, mem.unmapped);
    }

    // Mark block h free, before it is put on a list.
    method Unuse(h: Addr)
      requires Sound() && h in size && h !in free
      modifies `uses, `free, `last
      ensures free == old(free) + {h} && last == old(last)[h := Short(gcNo)] && Plain()
      ensures Freeing(h) && uses == old(uses) - {h}
      ensures FreePages(size, free, pages) == FreePages(size, old(free), pages) + Run(h, size[h])
      ensures |FreePages(size, free, pages)| == largeFree + size[h]
    {
      hide Binned, Counted, Tiled, FreePages, Threaded, Bin, Fits, NoAdjacent, Run;
      FreeChange(size, free, pages, h);
      FitsFree(size, free, uses, h);
      last := last[h := Short(gcNo)];
      uses := uses - {h};
      free := free + {h};
      assert free - {h} == old(free);
    }

    method FindPrev(h: Addr) returns (prev: Addr)
      requires Freeing(h)
      ensures Precedes(prev, h)
    {
      prev := FreeBlockEndingAt(h);
    }

    // Both coalescing steps.
    method Merge(h: Addr, prev: Addr) returns (cur: Addr)
      requires Freeing(h) && Precedes(prev, h) && Plain() && away <= free && h !in away
      modifies fl, `freeBytes, `on, `free, `size, `last
      ensures AwayKept(old(size), size, free, away) && cur !in away && cur in size && cur <= h < cur + size[cur]
      ensures BothMerged(old(size), old(free), away, h, size, free, cur)
      ensures last == if cur == h then old(last) else old(last)[cur := Short(gcNo)]
      ensures Merged(cur) && FreePages(size, free, pages) == FreePages(old(size), old(free), pages)
    {
      hide AwayKept, Binned, Counted, Tiled, FreePages, Threaded, Bin, Fits, NoAdjacent, Run, LeftClear, RightClear,
           Join, NextSizes, NextFree, PrevMerged;
      Positive(h);
      MergeNext(h);
      ghost var size1, free1 := size, free;
      AwayStays(old(size), size1, free1, away);
      if prev != 0 && prev !in away && size[h] + size[prev] < MAX_BLOCKS {
        IsPrevMerged(size, free, away, h, prev);
        MergePrev(prev, h);
        AwayTrans(old(size), size1, size, free1, free, away);
        cur := prev;
      } else {
        StaysClear(prev, h);
        NotPrevMerged(size, free, away, pages, h, prev);
        cur := h;
      }
    }

    // A predecessor that is not merged is too large, or has no memory.
    lemma StaysClear(prev: Addr, h: Addr)
      requires Loose(h) && h in size && Plain()
      requires if prev == 0 then LeftClear(size, free, h)
               else prev in away || (prev in size && prev < h && size[h] + size[prev] >= MAX_BLOCKS)
      requires Merging() ==> NoAdjacent(size, free - {h}) && RightClear(size, free, h)
      ensures Merging() ==> NoAdjacent(size, free)
    {
      if prev == 0 {
        if Merging() { ClearBothSides(size, free, h); }
      } else if prev !in away {
        TwoFit(size, pages, prev, h);
      }
    }

    lemma Positive(h: Addr)
      requires Loose(h)
      ensures h in size && h > 0 && size[h] > 0
    {
    }

    // The end of GC_freehblk.
    method Relist(h: Addr, n: nat)
      requires Merged(h) && |FreePages(size, free, pages)| == largeFree + n
      modifies fl, `freeBytes, `on, `free, `largeFree
      requires Plain()
      ensures Sound() && free == old(free) && h in free
    {
      hide Binned, Counted, Threaded, Tiled, FreePages, Fits, NoAdjacent, Bin;
      Positive(h);
      PutBack(free, h);
      largeFree := largeFree + n;
      AddToFl(h);
    }

    // GC_freehblk; not ok means that the collector aborted because the block is free already.  Otherwise it is part of
    // free block cur then.
    method FreeHblk(h: Addr) returns (ok: bool, ghost cur: Addr)
      requires Valid() && h in size
      modifies fl, `freeBytes, `on, `free, `size, `uses, `largeFree, `last
      ensures ok <==> h !in old(free)
      ensures Valid()
      ensures ok ==> FreePages(size, free, pages) == FreePages(old(size), old(free), pages) + Run(h, old(size)[h])
      ensures ok ==> uses == old(uses) - {h} && BothMerged(old(size), old(free) + {h}, away, h, size, free, cur)
      ensures ok ==> Touched(h, cur) && last == old(last)[h := Short(gcNo)][cur := Short(gcNo)]
      ensures !ok ==> unchanged(this) && unchanged(fl)
    {
      hide Sound, Mapped, Touched, BothMerged;
      ok, cur := h !in free, h;
      if ok {
        cur := Release(h);
      }
    }

    /****** growing the heap ******/

    // New memory described as one block in use.
    method Extend(p: Addr, n: nat)
      requires Sound() && Mapped() && p > 0 && n > 0 && Run(p, n) !! pages
      modifies `size, `uses, `pages, `last
      ensures Mapped()
      ensures Sound() && p in size && p !in free && size[p] == n && pages == old(pages) + Run(p, n)
      ensures |pages| == |old(pages)| + n
      ensures FreePages(size, free, pages) == FreePages(old(size), free, old(pages))
      ensures p !in old(uses) && uses.Keys == old(uses.Keys) + {p} && uses - {p} == old(uses)
    {
      hide Marked, Binned, Counted, Threaded, Tiled, FreePages, Fits, Run, NoAdjacent;
      ExtendFacts(p, n);
      size := size[p := n];
      last := last[p := Short(gcNo)];
      uses := uses[p := Use(n * HBLKSIZE, PtrFree, false)];
      pages := pages + Run(p, n);
    }

    lemma ExtendFacts(p: Addr, n: nat)
      requires Sound() && Mapped() && p > 0 && n > 0 && Run(p, n) !! pages
      ensures p !in size && p !in free && p !in uses
      ensures var s2, p2, u2 := size[p := n], pages + Run(p, n), uses[p := Use(n * HBLKSIZE, PtrFree, false)];
              && Tiled(s2, p2) && free <= s2.Keys && Fits(s2, free, u2) && u2 - {p} == uses
              && FreePages(s2, free, p2) == FreePages(size, free, pages) && |p2| == |pages| + n
              && Binned(s2, odd, on, fl.lists) && Counted(s2, fl.lists, freeBytes)
              && (Merging() ==> NoAdjacent(s2, free))
              && Marked(s2, free, away, mem.page, mem.unmapped)
    {
      TiledExtend(size, pages, p, n);
      MarkedFrame(size, free, size[p := n], free, away, mem.page, mem.unmapped);
      hide Marked, Binned, Counted, Threaded, Tiled, FreePages, Fits, Run, NoAdjacent;
      FreeExtend(size, free, pages, p, n);
      FitsExtend(size, free, uses, p, n);
      BinnedFrame(size, size[p := n], odd, on, fl.lists, freeBytes);
      if Merging() { NoAdjacentExtend(size, free, p, n); }
    }

    // GC_add_to_heap; not ok means that the collector aborted for want of room in the table of sections.
    method AddToHeap(p0: Addr, n0: nat) returns (ok: bool)
      requires Valid() && n0 > 0 && p0 + n0 <= MEMORY_END && Run(p0, n0) !! pages
      modifies fl, `freeBytes, `on, `free, `size, `uses, `largeFree, `last, `pages, `heapSize, `sects
      ensures ok <==> old(sects) < MAX_HEAP_SECTS
      ensures Valid() && uses == old(uses) && (!ok ==> unchanged(this) && unchanged(fl))
      ensures ok ==> pages == old(pages) + Addressable(Run(p0, n0))
      ensures ok ==> sects == old(sects) + if Addressable(Run(p0, n0)) == {} then 0 else 1
      ensures ok ==>
                FreePages(size, free, pages) == FreePages(old(size), old(free), old(pages)) + Addressable(Run(p0, n0))
    {
      hide *;
      ok := sects < MAX_HEAP_SECTS;
      if ok {
        var p, n := Trim(p0, n0);
        RunPart(p0, n0, p, n);
        NoRun(p, n);
        if n > 0 {
          AddBlock(p, n);
        }
      }
    }

    // Leave out what cannot be handled at either end of the address space.
    method Trim(p0: Addr, n0: nat) returns (p: Addr, n: nat)
      requires n0 > 0 && p0 + n0 <= MEMORY_END
      ensures p0 <= p && p + n <= p0 + n0 && (n > 0 ==> p > 0)
      ensures Run(p, n) == Addressable(Run(p0, n0))
    {
      p, n := p0, n0;
      while p <= 1 && n > 0
        invariant p + n == p0 + n0 && p0 <= p
        invariant n < n0 ==> p <= 2
        invariant p > 2 ==> p == p0
        decreases n
      {
        p := p + 1;
        n := n - 1;
      }
      if n > 0 && p + n == MEMORY_END {
        n := n - 1;
      }
      Trimmed(p0, n0, p, n);
    }

    method AddBlock(p: Addr, n: nat)
      requires Valid() && p > 0 && n > 0 && Run(p, n) !! pages
      modifies fl, `freeBytes, `on, `free, `size, `uses, `largeFree, `last, `pages, `heapSize, `sects
      ensures Valid() && uses == old(uses) && pages == old(pages) + Run(p, n) && sects == old(sects) + 1
      ensures FreePages(size, free, pages) == FreePages(old(size), old(free), old(pages)) + Run(p, n)
    {
      hide Sound, Mapped, FreePages, Run;
      Extend(p, n);
      sects := sects + 1;
      var a := Release(p);
      heapSize := heapSize + n;
    }

    /****** taking a block ******/

    // Free block x, on list n, which may be the wrong one, is about to be used; all else is as usual.
    ghost predicate Carving(x: Addr, n: nat)
      reads `size, `free, `uses, `freeBytes, `largeFree, `pages, `on, `odd, `away, fl
    {
      && Listed() && Divided() && Plain() && x in free && on == free && odd == map[x := n]
      && largeFree == |FreePages(size, free, pages)|
      && (Merging() ==> NoAdjacent(size, free - {x}) && RightClear(size, free - {x}, x))
    }

    // The second part of block h takes its place on list n.
    method PutSecond(h: Addr, x: Addr, n: nat)
      requires Sound() && h in free && h in size && n == Bin(size[h]) && h < x < h + size[h]
      modifies fl, `freeBytes, `on, `size, `odd, `last
      ensures Listed() && size == Divide(old(size), h, x - h) && on == old(on) - {h} + {x} && odd == map[x := n]
      ensures last == old(last)[x := Short(gcNo)][h := Short(gcNo)]
    {
      hide Others, Binned, Counted, Threaded, Tiled, FreePages, Fits, NoAdjacent, RightClear, Bin, Divide;
      ghost var j := ListIndex(size, on, odd, fl.lists, h);
      fl.HeadOf(n);
      SplitFacts(h, x, n, j);
      ghost var s2, l0 := Divide(size, h, x - h), fl.lists;
      fl.Replace(n, h, x, j);
      assert fl.lists == l0[n := Put(l0[n], j, x)];
      Halve(h, x - h, s2);
      freeBytes := freeBytes[n := freeBytes[n] - (x - h)];
      on := on - {h} + {x};
      odd := map[x := n];
      last := last[h := Short(gcNo)];
    }

    // GC_split_block: divide free block h at x; x takes its place on list n.
    method SplitBlock(h: Addr, x: Addr, n: nat)
      requires Sound() && h in free && h in size && n == Bin(size[h]) && h < x < h + size[h]
      modifies fl, `freeBytes, `on, `free, `size, `odd, `last
      ensures Carving(x, n) && x in size && size[x] == old(size)[h] - (x - h)
      ensures FreePages(size, free, pages) == FreePages(old(size), old(free), pages)
      ensures Others(old(size), old(free), size, free, h) && x !in old(free)
      ensures size == Divide(old(size), h, x - h) && free == old(free) + {x}
      ensures last == old(last)[x := Short(gcNo)][h := Short(gcNo)]
    {
      hide Others, Listed, Tiled, FreePages, Fits, NoAdjacent, RightClear, Bin, Divide, Sound;
      SoundParts();
      ghost var j := ListIndex(size, on, odd, fl.lists, h);
      SplitFacts(h, x, n, j);
      DivideSizes(size, h, x - h);
      PutSecond(h, x, n);
      AddToFl(h);
      free := free + {x};
      SplitSets(old(free), old(on), h, x);
    }

    lemma SoundParts()
      requires Sound()
      ensures Binned(size, odd, on, fl.lists) && fl.Valid() && |fl.lists| == N_HBLK_FLS + 1
      ensures forall i :: 0 <= i < |fl.lists| ==> Distinct(fl.lists[i])
      ensures on == free && odd == map[] && Plain() && largeFree == |FreePages(size, free, pages)|
    {
      hide Tiled, FreePages, Fits, NoAdjacent, Bin, Counted, OnList;
      forall i | 0 <= i < |fl.lists| ensures Distinct(fl.lists[i]) { fl.HeadOf(i); }
    }


    lemma SplitFacts(h: Addr, x: Addr, n: nat, j: nat)
      requires Sound() && h in free && h in size && h < x < h + size[h]
      requires n < |fl.lists| && j < |fl.lists[n]| && fl.lists[n][j] == h && Distinct(fl.lists[n])
      ensures n < |freeBytes|
      ensures var s2 := Divide(size, h, x - h);
              && h > 0 && x !in size && x !in free && h !in map[x := n]
              && Tiled(s2, pages) && Fits(s2, free + {x}, uses) && free + {x} <= s2.Keys
              && FreePages(s2, free + {x}, pages) == FreePages(size, free, pages)
              && freeBytes[n] >= x - h
              && Binned(s2, map[x := n], on - {h} + {x}, fl.lists[n := Put(fl.lists[n], j, x)])
              && Counted(s2, fl.lists[n := Put(fl.lists[n], j, x)], freeBytes[n := freeBytes[n] - (x - h)])
              && (forall k :: 0 <= k < |fl.lists| ==> x !in fl.lists[k])
              && Others(size, free, s2, free + {x}, h)
              && (Merging() ==> NoAdjacent(s2, free) && RightClear(s2, free, x))
    {
      hide Tiled, FreePages, Fits, NoAdjacent, RightClear, Bin, Divide, Put, SumSz, Binned, OnList, Threaded;
      var k := x - h;
      SplitTiled(size, free, uses, pages, h, k);
      FreeDivide(size, free, pages, h, k);
      DivideOthers(size, h, k);
      if Merging() { DivideClear(size, free, pages, h, k); }
      BinnedReplace(size, Divide(size, h, k), on, fl.lists, freeBytes, n, j, x);
    }

    // GC_get_first_part and setup_header: use the first need blocks of free block x; what is left goes to
    // its free list.
    method GetFirstPart(x: Addr, need: nat, n: nat, use: Use)
      requires Carving(x, n) && x in size && 0 < need <= size[x] && need == Blocks(use.sz)
      modifies fl, `freeBytes, `on, `free, `size, `odd, `uses, `largeFree, `last
      ensures Sound() && uses == old(uses)[x := use] && largeFree + need == old(largeFree)
      ensures FreePages(size, free, pages) == FreePages(old(size), old(free), pages) - Run(x, need)
      ensures Run(x, need) <= FreePages(old(size), old(free), pages)
      ensures Others(old(size), old(free), size, free, x)
      ensures need == old(size)[x] ==>
                size == old(size) && free == old(free) - {x} && Removed(old(fl.lists), fl.lists, n, x)
      ensures need < old(size)[x] ==> size == Divide(old(size), x, need) && free == old(free) - {x} + {x + need}
      ensures last == if need < old(size)[x] then old(last)[x + need := Short(gcNo)] else old(last)
    {
      hide Removed, Others, Binned, Counted, Threaded, Tiled, FreePages, Fits, NoAdjacent, RightClear, Bin, Run,
           Blocks, Divide;
      var total := size[x];
      if total > need {
        TakePart(x, need, n, use);
      } else {
        WholeFree(size, free, pages, x);
        OthersFree(x);
        FitsUse(size, free, uses, x, use);
        RemoveFromFl(x, n);
        BinnedEven(size, on, x, n, fl.lists);
        odd := map[];
        free := free - {x};
        uses := uses[x := use];
        largeFree := largeFree - need;
      }
    }

    method TakePart(x: Addr, need: nat, n: nat, use: Use)
      requires Carving(x, n) && x in size && 0 < need < size[x] && need == Blocks(use.sz)
      modifies fl, `freeBytes, `on, `free, `size, `odd, `uses, `largeFree, `last
      ensures Sound() && uses == old(uses)[x := use] && largeFree + need == old(largeFree)
      ensures FreePages(size, free, pages) == FreePages(old(size), old(free), pages) - Run(x, need)
      ensures Run(x, need) <= FreePages(old(size), old(free), pages)
      ensures Others(old(size), old(free), size, free, x)
      ensures size == Divide(old(size), x, need) && free == old(free) - {x} + {x + need}
      ensures last == old(last)[x + need := Short(gcNo)]
    {
      hide Others, Binned, Counted, Threaded, Tiled, FreePages, Fits, NoAdjacent, RightClear, Bin, Run, Blocks, Divide;
      hide Sound, Listed, Divided, Carving;
      TakeFacts(x, need, n, use);
      LeaveList(x, need, n);
      AddToFl(x + need);
      free := free - {x};
      uses := uses[x := use];
      largeFree := largeFree - need;
      IsSound();
    }

    // The block is taken off its list and divided.
    method LeaveList(x: Addr, need: nat, n: nat)
      requires Carving(x, n) && x in size && 0 < need < size[x] && x + need !in size
      modifies fl, `freeBytes, `on, `odd, `size, `last
      ensures Listed() && odd == map[] && on == old(on) - {x} && size == Divide(old(size), x, need)
      ensures last == old(last)[x + need := Short(gcNo)]
    {
      hide Others, Binned, Counted, Threaded, Tiled, FreePages, Fits, NoAdjacent, RightClear, Bin, Run, Divide;
      DivideOthers(size, x, need);
      ghost var s2 := Divide(size, x, need);
      RemoveFromFl(x, n);
      BinnedEven(size, on, x, n, fl.lists);
      odd := map[];
      BinnedFrame(size, s2, odd, on, fl.lists, freeBytes);
      Halve(x, need, s2);
    }

    lemma TakeFacts(x: Addr, need: nat, n: nat, use: Use)
      requires Carving(x, n) && x in size && 0 < need < size[x] && need == Blocks(use.sz)
      ensures var s2, rest, f2 := Divide(size, x, need), x + need, free - {x} + {x + need};
              && x > 0 && rest !in size && rest !in free && free + {rest} - {x} == f2 && on == free && Plain()
              && Tiled(s2, pages) && f2 <= s2.Keys && Fits(s2, f2, uses[x := use])
              && FreePages(s2, f2, pages) == FreePages(size, free, pages) - Run(x, need)
              && Run(x, need) <= FreePages(size, free, pages) && |FreePages(s2, f2, pages)| + need == largeFree
              && Others(size, free, s2, f2, x)
              && (Merging() ==> NoAdjacent(s2, f2))
    {
      hide Binned, Counted, Threaded, Tiled, FreePages, Fits, NoAdjacent, RightClear, Bin, Run, Blocks, Divide;
      DivideOthers(size, x, need);
      PartTiled(size, free, uses, pages, x, need, use);
      PartFree(size, free, pages, x, need);
      if Merging() { RestClear(size, free - {x}, pages, x, need); }
      PartSets(free, x, x + need);
    }

    lemma IsSound()
      requires Listed() && odd == map[] && on == free && Plain() && (Merging() ==> NoAdjacent(size, free))
      requires Tiled(size, pages) && free <= size.Keys && Fits(size, free, uses)
      requires largeFree == |FreePages(size, free, pages)|
      ensures Sound()
    {
      hide Listed, Tiled, FreePages, Fits, NoAdjacent;
    }

    lemma OthersFree(x: Addr)
      requires Divided()
      ensures Others(size, free, size, free - {x}, x)
    {
    }

    method Halve(x: Addr, need: nat, ghost s2: map<Addr, nat>)
      requires x in size && need < size[x] && s2 == Divide(size, x, need)
      modifies `size, `last
      ensures size == s2 && last == old(last)[x + need := Short(gcNo)]
    {
      var total := size[x];
      size := size[x := need][x + need := total - need];
      last := last[x + need := Short(gcNo)];
    }

    // Use need blocks from x on of free block h, which is on list n.
    method TakeAt(h: Addr, x: Addr, need: nat, n: nat, use: Use)
      requires Sound() && h in free && h in size && n == Bin(size[h])
      requires h <= x && 0 < need && x + need <= h + size[h] && need == Blocks(use.sz)
      modifies fl, `freeBytes, `on, `free, `size, `odd, `uses, `largeFree, `last
      ensures Sound() && uses == old(uses)[x := use] && largeFree + need == old(largeFree)
      ensures FreePages(size, free, pages) == FreePages(old(size), old(free), pages) - Run(x, need)
      ensures Run(x, need) <= FreePages(old(size), old(free), pages)
      ensures Others(old(size), old(free), size, free, h)
    {
      hide *;
      if x != h {
        SplitBlock(h, x, n);
      } else {
        OthersSame(h);
        Choose(h, n);
      }
      ghost var size1, free1 := size, free;
      GetFirstPart(x, need, n, use);
      OthersTrans(old(size), old(free), size1, free1, size, free, h, x);
    }

    lemma OthersSame(x: Addr)
      requires Sound()
      ensures Others(size, free, size, free, x)
    {
    }

    // Without splitting, the block to be used is on the right list.
    method Choose(h: Addr, n: nat)
      requires Sound() && h in free && h in size && n == Bin(size[h])
      modifies `odd
      ensures Carving(h, n)
    {
      hide Binned, Counted, Threaded, Tiled, FreePages, Fits, NoAdjacent, RightClear, Bin;
      BinnedOdd(size, on, h, fl.lists);
      if Merging() { AloneClear(size, free, pages, h); }
      odd := map[h := n];
    }

    // A block that is black listed through and through is given up until the next collection: it becomes
    // as many pointer-free blocks of one page (allchblk.c:739-778).
    method DropBlock(h: Addr, n: nat)
      requires Sound() && h in free && h in size && n == Bin(size[h])
      modifies fl, `freeBytes, `on, `free, `size, `odd, `uses, `largeFree, `last
      ensures Sound() && free == old(free) - {h}
      ensures SameFree(old(size), size, free)
      ensures Kept(old(uses), uses)
      ensures FreePages(size, free, pages) == FreePages(old(size), old(free), pages) - Run(h, old(size)[h])
      ensures Run(h, old(size)[h]) <= FreePages(old(size), old(free), pages)
      ensures Removed(old(fl.lists), fl.lists, n, h)
      ensures Singles(size, uses, h, h + old(size)[h])
    {
      hide *;
      ghost var size0, uses0, f0 := size, uses, FreePages(size, free, pages) - Run(h, size[h]);
      StartDrop(h, n);
      ghost var free1 := free;
      var x := h;
      while size[x] > 1
        invariant x in size && free == free1 && Removed(old(fl.lists), fl.lists, n, h)
        invariant Dropping(size0, uses0, f0, x) && Paged(size, uses, h, x, h + size0[h])
        decreases size[x]
      {
        DropPage(size0, uses0, f0, x, h, h + size0[h]);
        x := x + 1;
      }
      PagedAll(size, uses, h, x, h + size0[h]);
      IsDropped(size0, uses0, f0, x);
    }

    method StartDrop(h: Addr, n: nat)
      requires Sound() && h in free && h in size && n == Bin(size[h])
      modifies fl, `freeBytes, `on, `free, `size, `odd, `uses, `largeFree, `last
      ensures h in size && free == old(free) - {h}
      ensures Dropping(old(size), old(uses), FreePages(old(size), old(free), pages) - Run(h, old(size)[h]), h)
      ensures Run(h, old(size)[h]) <= FreePages(old(size), old(free), pages)
      ensures Removed(old(fl.lists), fl.lists, n, h) && Paged(size, uses, h, h, h + old(size)[h])
    {
      FreeSized();
      hide *;
      GiveUp(h, n);
      PagedNone(size, uses, h);
      DropStart(old(size), old(free), old(uses), h, uses[h]);
      IsDropping(old(size), old(uses), FreePages(size, free, pages), h);
    }

    // Pages before x of the dropped block are blocks of their own.
    ghost predicate Dropping(size0: map<Addr, nat>, uses0: map<Addr, Use>, f0: set<nat>, x: Addr)
      reads `size, `free, `uses, `freeBytes, `largeFree, `pages, `on, `odd, `away, fl
    {
      && Sound() && SameFree(size0, size, free) && x in size && x in uses && x !in uses0 && Kept(uses0, uses)
      && FreePages(size, free, pages) == f0
    }

    lemma IsDropping(size0: map<Addr, nat>, uses0: map<Addr, Use>, f0: set<nat>, x: Addr)
      requires Sound() && SameFree(size0, size, free) && x in size && x in uses && x !in uses0 && Kept(uses0, uses)
      requires FreePages(size, free, pages) == f0
      ensures Dropping(size0, uses0, f0, x)
    {
    }

    lemma IsDropped(size0: map<Addr, nat>, uses0: map<Addr, Use>, f0: set<nat>, x: Addr)
      requires Dropping(size0, uses0, f0, x)
      ensures Sound() && SameFree(size0, size, free) && Kept(uses0, uses) && FreePages(size, free, pages) == f0
    {
    }

    method DropPage(ghost size0: map<Addr, nat>, ghost uses0: map<Addr, Use>, ghost f0: set<nat>, x: Addr,
                    ghost h: Addr, ghost end: Addr)
      requires Dropping(size0, uses0, f0, x) && x in size && size[x] > 1 && Paged(size, uses, h, x, end)
      modifies `size, `uses, `last
      ensures pages == old(pages) && free == old(free)
      ensures Dropping(size0, uses0, f0, x + 1) && x + 1 in size && size[x + 1] < old(size)[x]
      ensures Paged(size, uses, h, x + 1, end)
    {
      hide Sound, SameFree, Kept, FreePages, Paged;
      PagedMore(size, uses, h, x, end, Use((size[x] - 1) * HBLKSIZE, PtrFree, false));
      CutPage(x);
      SameFreeTrans(size0, old(size), size, free, free);
      KeptAdd(uses0, old(uses), x, uses[x]);
      NotKept(uses0, old(uses), x + 1);
      KeptAdd(uses0, old(uses)[x := uses[x]], x + 1, uses[x + 1]);
    }

    lemma FreeSized()
      requires Divided() || Sound()
      ensures forall a <- free :: a in size
      ensures SameFree(size, size, free)
    {
    }

    // The block leaves its list and is in use as a whole.
    method GiveUp(h: Addr, n: nat)
      requires Sound() && h in free && h in size && n == Bin(size[h])
      modifies fl, `freeBytes, `on, `free, `size, `odd, `uses, `largeFree, `last
      ensures Sound() && free == old(free) - {h} && h in size && h in uses && size == old(size)
      ensures h !in old(uses) && uses == old(uses)[h := Use(size[h] * HBLKSIZE, PtrFree, false)]
      ensures FreePages(size, free, pages) == FreePages(old(size), old(free), pages) - Run(h, old(size)[h])
      ensures Run(h, old(size)[h]) <= FreePages(old(size), old(free), pages)
      ensures Removed(old(fl.lists), fl.lists, n, h)
    {
      WholeBlocks(size[h]);
      UsedOrFree(h);
      TileAt(h);
      hide *;
      Choose(h, n);
      GetFirstPart(h, size[h], n, Use(size[h] * HBLKSIZE, PtrFree, false));
    }

    lemma TileAt(h: Addr)
      requires Divided() && h in size
      ensures h > 0 && size[h] > 0
    {
    }

    lemma UsedOrFree(h: Addr)
      requires Divided()
      ensures h in uses ==> h in size && h !in free
    {
    }

    // Cut the first page off a block in use.
    method CutPage(x: Addr)
      requires Sound() && x in uses && x in size && size[x] > 1
      modifies `size, `uses, `last
      ensures Sound() && x in size && x + 1 in size && x + 1 in uses && x + 1 !in old(uses)
      ensures size == old(size)[x := 1][x + 1 := old(size)[x] - 1]
      ensures uses == old(uses)[x := Use(HBLKSIZE, PtrFree, false)]
                      [x + 1 := Use((old(size)[x] - 1) * HBLKSIZE, PtrFree, false)]
      ensures x in uses && uses == old(uses)[x := uses[x]][x + 1 := uses[x + 1]]
      ensures SameFree(old(size), size, free)
      ensures FreePages(size, free, pages) == FreePages(old(size), free, pages)
    {
      hide Binned, Counted, Threaded, Tiled, FreePages, Fits, NoAdjacent, RightClear, Bin, Run, Blocks, Divide;
      UsedOrFree(x);
      UsedOrFree(x + 1);
      DivideOthers(size, x, 1);
      CutTiled(size, free, uses, pages, x);
      ghost var s2 := Divide(size, x, 1);
      CutFrame(x, s2);
      BinnedFrame(size, s2, odd, on, fl.lists, freeBytes);
      Halve(x, 1, s2);
      uses := uses[x := Use(HBLKSIZE, PtrFree, false)][x + 1 := Use(size[x + 1] * HBLKSIZE, PtrFree, false)];
    }

    lemma CutFrame(x: Addr, s2: map<Addr, nat>)
      requires Sound() && x in size && x !in free && x + 1 !in size
      requires forall a <- size :: a != x && a != x + 1 ==> a in s2 && s2[a] == size[a]
      ensures forall a <- on :: a in size && a in s2 && s2[a] == size[a]
    {
    }

    /****** searching ******/

    // Nothing is black listed.
    ghost predicate Clean()
      requires bl.Valid()
      reads bl, bl.oldNormal, bl.newNormal, bl.oldStack, bl.newStack
    {
      forall h, len :: !bl.Listed(h, len)
    }

    // Blocks of this use must avoid black listed pages.
    predicate MustCheck(need: nat, use: Use) {
      !use.kind.IsUncollectable() && (use.kind != PtrFree || need > MAX_BLACK_LIST_ALLOC)
    }

    // How much of a block must not be black listed.
    function Effective(need: nat, use: Use): nat {
      if use.ignoreOffPage then 1 else need
    }

    // A free block of sz pages at h can hold the object: it is large enough, and its use may ignore the black
    // lists, or the block is so much larger than a large object that they are given up for it, or some start is
    // not black listed.
    ghost predicate Serves(h: Addr, sz: nat, use: Use)
      requires bl.Valid()
      reads `blLimit, bl, bl.oldNormal, bl.newNormal, bl.oldStack, bl.newStack
    {
      var need := Blocks(use.sz);
      sz >= need
      && (|| !MustCheck(need, use)
          || (need > blLimit && sz - need > blLimit)
          || exists x :: h <= x && x + need <= h + sz && !bl.Listed(x, Effective(need, use)))
    }

    // The place r in free block home, of sz pages, is the first that is not black listed, unless the black lists do not
    // matter or are given up.
    ghost predicate WellPlaced(home: Addr, sz: nat, r: Addr, use: Use)
      requires bl.Valid()
      reads `blLimit, bl, bl.oldNormal, bl.newNormal, bl.oldStack, bl.newStack
    {
      var need := Blocks(use.sz);
      && (forall b :: home <= b < r ==> MustCheck(need, use) && bl.Listed(b, Effective(need, use)))
      && (MustCheck(need, use) && bl.Listed(r, Effective(need, use)) ==>
            r == home && need > blLimit && sz - need > blLimit)
    }

    // The search passes over a block because the next one of the list is a smaller one that is large enough and not
    // black listed.
    ghost predicate PassedOver(sizes: map<Addr, nat>, s: seq<Addr>, j: nat, need: nat)
      requires bl.Valid() && j < |s|
      reads `blLimit, bl, bl.oldNormal, bl.newNormal, bl.oldStack, bl.newStack
    {
      j + 1 < |s| && need <= Sz(sizes, s[j + 1]) < Sz(sizes, s[j]) && !bl.Listed(s[j + 1], need)
    }

    // The search takes the jth block of a list if it gets there.
    ghost predicate Chosen(sizes: map<Addr, nat>, s: seq<Addr>, j: nat, use: Use, maySplit: bool)
      requires bl.Valid()
      reads `blLimit, bl, bl.oldNormal, bl.newNormal, bl.oldStack, bl.newStack
    {
      && j < |s| && !Useless(s[j], Sz(sizes, s[j]), use, maySplit)
      && !PassedOver(sizes, s, j, Blocks(use.sz))
    }

    // The search of a list comes to its first such block, or to none.
    ghost predicate Picks(sizes: map<Addr, nat>, s: seq<Addr>, r: Addr, home: Addr, use: Use, maySplit: bool)
      requires bl.Valid()
      reads `blLimit, bl, bl.oldNormal, bl.newNormal, bl.oldStack, bl.newStack
    {
      if r == 0 then forall i: nat :: !Chosen(sizes, s, i, use, maySplit)
      else
        exists k: nat ::
          && Chosen(sizes, s, k, use, maySplit) && s[k] == home
          && forall i: nat :: i < k ==> !Chosen(sizes, s, i, use, maySplit)
    }

    // The search has come to place j of list n, which is place k of the list s0 as it was, and there was none before.
    ghost predicate Trail(size0: map<Addr, nat>, s0: seq<Addr>, k: nat, lists: seq<seq<Addr>>, n: nat, j: nat, use: Use,
                          maySplit: bool)
      requires bl.Valid()
      reads `blLimit, bl, bl.oldNormal, bl.newNormal, bl.oldStack, bl.newStack
    {
      && n < |lists| && k <= |s0| && j <= |lists[n]| && s0[k..] == lists[n][j..]
      && forall i :: 0 <= i < k ==> !Chosen(size0, s0, i, use, maySplit)
    }

    lemma TrailStart(size0: map<Addr, nat>, lists: seq<seq<Addr>>, n: nat, use: Use, maySplit: bool)
      requires bl.Valid() && n < |lists|
      ensures Trail(size0, lists[n], 0, lists, n, 0, use, maySplit)
    {
    }

    lemma TrailOn(size0: map<Addr, nat>, s0: seq<Addr>, k: nat, size1: map<Addr, nat>, free1: set<Addr>,
                  lists: seq<seq<Addr>>, n: nat, j: nat, use: Use, maySplit: bool)
      requires bl.Valid() && Trail(size0, s0, k, lists, n, j, use, maySplit) && j < |lists[n]|
      requires SameFree(size0, size1, free1) && forall a <- lists[n] :: a in free1
      ensures k < |s0| && s0[k] == lists[n][j] && s0[k + 1..] == lists[n][j + 1..]
      ensures Chosen(size1, lists[n], j, use, maySplit) <==> Chosen(size0, s0, k, use, maySplit)
    {
      hide Useless, BlackLists.Listed, Blocks;
      var s := lists[n];
      assert s0[k] == s0[k..][0] == s[j..][0] == s[j];
      assert s0[k + 1..] == s0[k..][1..] == s[j..][1..] == s[j + 1..];
      assert |s0| - k == |s0[k..]| == |s[j..]| == |s| - j;
      assert s[j] in s;
      if j + 1 < |s| {
        assert s0[k + 1] == s0[k + 1..][0] == s[j + 1];
        assert s[j + 1] in s;
      }
    }

    lemma TrailNext(size0: map<Addr, nat>, s0: seq<Addr>, k: nat, lists: seq<seq<Addr>>, n: nat, j: nat, use: Use,
                    maySplit: bool)
      requires bl.Valid() && Trail(size0, s0, k, lists, n, j, use, maySplit) && j < |lists[n]| && k < |s0|
      requires s0[k + 1..] == lists[n][j + 1..] && !Chosen(size0, s0, k, use, maySplit)
      ensures Trail(size0, s0, k + 1, lists, n, j + 1, use, maySplit)
    {
      hide Chosen;
    }

    lemma TrailDropped(size0: map<Addr, nat>, s0: seq<Addr>, k: nat, lists: seq<seq<Addr>>, lists2: seq<seq<Addr>>,
                       n: nat, j: nat, use: Use, maySplit: bool)
      requires bl.Valid() && Trail(size0, s0, k, lists, n, j, use, maySplit) && j < |lists[n]| && k < |s0|
      requires s0[k + 1..] == lists[n][j + 1..] && !Chosen(size0, s0, k, use, maySplit)
      requires n < |lists2| && lists2[n] == Without(lists[n], j)
      ensures Trail(size0, s0, k + 1, lists2, n, j, use, maySplit)
    {
      hide Chosen;
      assert lists2[n][j..] == lists[n][j + 1..];
    }

    lemma TrailTook(size0: map<Addr, nat>, s0: seq<Addr>, k: nat, lists: seq<seq<Addr>>, n: nat, j: nat, r: Addr,
                    use: Use, maySplit: bool)
      requires bl.Valid() && Trail(size0, s0, k, lists, n, j, use, maySplit) && Chosen(size0, s0, k, use, maySplit)
      requires r != 0
      ensures k < |s0| && Picks(size0, s0, r, s0[k], use, maySplit)
    {
      hide Useless, PassedOver;
    }

    lemma TrailEnds(size0: map<Addr, nat>, s0: seq<Addr>, k: nat, lists: seq<seq<Addr>>, n: nat, j: nat, home: Addr,
                    use: Use, maySplit: bool)
      requires bl.Valid() && Trail(size0, s0, k, lists, n, j, use, maySplit) && j == |lists[n]|
      ensures Picks(size0, s0, 0, home, use, maySplit)
    {
      hide Useless, PassedOver;
      assert |s0[k..]| == 0;
    }

    // The search passes over the block.
    ghost predicate Useless(h: Addr, sz: nat, use: Use, maySplit: bool)
      requires bl.Valid()
      reads `blLimit, bl, bl.oldNormal, bl.newNormal, bl.oldStack, bl.newStack
    {
      Unfit(sz, Blocks(use.sz), maySplit) || !Serves(h, sz, use)
    }

    // The first j blocks of a list are useless, or the next one is not.
    ghost predicate Seen(sizes: map<Addr, nat>, s: seq<Addr>, j: nat, use: Use, maySplit: bool)
      requires bl.Valid()
      reads `blLimit, bl, bl.oldNormal, bl.newNormal, bl.oldStack, bl.newStack
    {
      || (j < |s| && !Useless(s[j], Sz(sizes, s[j]), use, maySplit))
      || forall k :: 0 <= k < j && k < |s| ==> Useless(s[k], Sz(sizes, s[k]), use, maySplit)
    }

    // The blocks that were dropped could not serve.
    ghost predicate RightlyGone(size0: map<Addr, nat>, free0: set<Addr>, left: set<Addr>, use: Use)
      requires bl.Valid()
      reads `blLimit, bl, bl.oldNormal, bl.newNormal, bl.oldStack, bl.newStack
    {
      forall h <- free0 :: h !in left ==> h in size0 && !Serves(h, size0[h], use)
    }

    // The search gets to a block that is of the right size or on a list up to the nth.
    ghost predicate Within(sz: nat, n: nat, use: Use) {
      sz == Blocks(use.sz) || Bin(sz) <= n
    }

    // Some free block that the search gets to can hold the object.
    ghost predicate Servable(sizes: map<Addr, nat>, blocks: set<Addr>, n: nat, use: Use)
      requires bl.Valid()
      reads `blLimit, bl, bl.oldNormal, bl.newNormal, bl.oldStack, bl.newStack
    {
      exists h <- blocks :: h in sizes && Serves(h, sizes[h], use) && Within(sizes[h], n, use)
    }

    lemma SeenNext(s: seq<Addr>, j: nat, use: Use, maySplit: bool)
      requires bl.Valid() && Seen(size, s, j, use, maySplit) && j < |s|
      requires || Useless(s[j], Sz(size, s[j]), use, maySplit)
               || (j + 1 < |s| && !Useless(s[j + 1], Sz(size, s[j + 1]), use, maySplit))
      ensures Seen(size, s, j + 1, use, maySplit)
    {
      hide Useless;
    }

    // The place in the list stays right when a block that cannot serve is taken out there.
    lemma SeenDropped(size1: map<Addr, nat>, s: seq<Addr>, j: nat, use: Use, maySplit: bool)
      requires bl.Valid() && Seen(size1, s, j, use, maySplit) && j < |s| && !Serves(s[j], Sz(size1, s[j]), use)
      requires SameFree(size1, size, free) && forall a <- Without(s, j) :: a in free
      ensures Seen(size, Without(s, j), j, use, maySplit)
    {
      hide Serves;
      var t := Without(s, j);
      forall k | 0 <= k < j && k < |t| ensures Useless(t[k], Sz(size, t[k]), use, maySplit) {
        assert t[k] == s[k] && t[k] in t;
      }
    }

    // Dropping one more block that cannot serve.
    lemma GoneMore(size0: map<Addr, nat>, free0: set<Addr>, size1: map<Addr, nat>, free1: set<Addr>, h: Addr, use: Use)
      requires bl.Valid() && RightlyGone(size0, free0, free1, use) && SameFree(size0, size1, free1)
      requires h in free1 && h in size1 && !Serves(h, size1[h], use)
      ensures RightlyGone(size0, free0, free1 - {h}, use)
    {
      hide Serves;
    }

    lemma GoneTrans(size0: map<Addr, nat>, free0: set<Addr>, size1: map<Addr, nat>, free1: set<Addr>, use: Use)
      requires bl.Valid() && RightlyGone(size0, free0, free1, use) && SameFree(size0, size1, free1)
      requires RightlyGone(size1, free1, free, use)
      ensures RightlyGone(size0, free0, free, use)
    {
      hide Serves;
    }

    // Where nothing is black listed, every block that is large enough serves.
    lemma CleanServes(h: Addr, sz: nat, use: Use)
      requires bl.Valid() && Clean()
      ensures Serves(h, sz, use) <==> sz >= Blocks(use.sz)
    {
      hide Blocks, BlackLists.Listed;
      if sz >= Blocks(use.sz) { assert !bl.Listed(h, Effective(Blocks(use.sz), use)); }
    }

    // A run that is not black listed has no black listed beginning.
    lemma StartServes(h: Addr, sz: nat, use: Use)
      requires bl.Valid() && sz >= Blocks(use.sz) > 0 && !bl.Listed(h, Blocks(use.sz))
      ensures Serves(h, sz, use)
    {
      hide Blocks;
      assert !bl.Listed(h, Effective(Blocks(use.sz), use));
    }

    // Find a place in a free block of avail blocks at h (allchblk.c:697-779).
    method Place(h: Addr, avail: nat, need: nat, use: Use, mapped: bool) returns (c: Choice)
      requires bl.Valid() && h > 0 && 0 < need <= avail && need == Blocks(use.sz)
      modifies `drops
      ensures c.Take? <==> Serves(h, avail, use)
      ensures c.Take? ==> h <= c.start && c.start + need <= h + avail
      ensures Clean() ==> c == Take(h)
      ensures c.Take? ==> WellPlaced(h, avail, c.start, use)
      ensures !c.Take? && MayDrop(need, mapped) ==>
                drops == old(drops) + 1 && c == if drops % 4 == 0 then Drop else Skip
      ensures c.Take? || !MayDrop(need, mapped) ==> drops == old(drops) && !c.Drop?
      ensures c.Drop? ==> forall b :: h <= b < h + avail ==> bl.Listed(b, 1)
    {
      if !MustCheck(need, use) {
        return Take(h);
      }
      var last := bl.FirstUsable(h, h + avail - need, Effective(need, use));
      assert last > h ==> bl.Listed(h, Effective(need, use));
      var left := avail - (last - h);
      if left >= need {
        c := Take(last);
      } else if need > blLimit && avail - need > blLimit {
        c := Take(h);
      } else if left == 0 && need == 1 && mapped && !findLeak {
        drops := drops + 1;
        c := if drops % 4 == 0 then Drop else Skip;
      } else {
        c := Skip;
      }
    }

    // A block that is black listed throughout is dropped if it counts as the fourth such block.
    predicate MayDrop(need: nat, mapped: bool)
    {
      need == 1 && mapped && !findLeak
    }

    // Whether the search passes over a block because its successor on the list is a smaller one that still fits.
    method Better(h: Addr, need: nat, ghost use: Use) returns (b: bool)
      requires bl.Valid() && h in fl.next && h in size && (fl.next[h] != 0 ==> fl.next[h] in size) && need > 0
      requires need == Blocks(use.sz)
      ensures b <==> fl.next[h] != 0 && need <= size[fl.next[h]] < size[h] && !bl.Listed(fl.next[h], need)
      ensures b ==> Serves(fl.next[h], size[fl.next[h]], use)
    {
      hide Blocks, Serves, BlackLists.Listed;
      var next := fl.next[h];
      b := false;
      if next != 0 && size[next] < size[h] && size[next] >= need {
        var r := bl.IsBlackListed(next, need);
        b := r == 0;
        if b { StartServes(next, size[next], use); }
      }
    }

    // A block on a list, and the one after it.
    lemma ListBlock(n: nat, j: nat)
      requires Sound() && n < |fl.lists| && j < |fl.lists[n]|
      ensures var h := fl.lists[n][j];
              && h > 0 && h in free && h in size && n == Bin(size[h]) && h in fl.next && h in fl.prev
              && fl.next[h] == At(fl.lists[n], j + 1) && (fl.next[h] == 0 <==> j + 1 == |fl.lists[n]|)
              && (fl.next[h] != 0 ==> fl.next[h] in size)
              && fl.prev[h] == (if j == 0 then 0 else fl.lists[n][j - 1])
    {
      fl.Step(n, j);
      assert OnList(size, odd, on, fl.lists[n], n);
      assert fl.lists[n][j] in fl.lists[n];
      if j + 1 < |fl.lists[n]| { assert fl.lists[n][j + 1] in fl.lists[n]; }
    }

    ghost predicate DropRule(drops0: nat, s: Step, need: nat, mapped: bool)
      reads `drops
    {
      && (!s.Took? && MayDrop(need, mapped) ==> drops == drops0 + 1 && (s.Dropped? <==> drops % 4 == 0))
      && (s.Took? || !MayDrop(need, mapped) ==> drops == drops0 && !s.Dropped?)
    }

    // One free block of GC_allochblk_nth's loop.
    method TryBlock(h: Addr, n: nat, ghost j: nat, need: nat, use: Use, maySplit: bool) returns (s: Step)
      requires Sound() && Mapped() && bl.Valid() && n < |fl.lists| && j < |fl.lists[n]| && h == fl.lists[n][j]
      requires need == Blocks(use.sz) && need > 0
      modifies fl, mem, `freeBytes, `on, `free, `size, `odd, `uses, `largeFree, `drops, `away, `last
      ensures Sound() && Mapped() && h in old(free) && h in old(size)
      ensures s.Next? ==> unchanged(fl) && unchanged(`size, `free, `uses, `freeBytes, `on, `odd, `largeFree, `away)
      ensures s.Next? ==>
                Useless(h, size[h], use, maySplit)
                || (j + 1 < |fl.lists[n]| && !Useless(fl.lists[n][j + 1], Sz(size, fl.lists[n][j + 1]), use, maySplit))
      ensures s.Took? ==> TookPart(old(size), old(free), old(uses), h, s.at, need, use) && Serves(h, old(size)[h], use)
      ensures s.Took? <==> Chosen(old(size), old(fl.lists)[n], j, use, maySplit)
      ensures if Unfit(old(size)[h], need, maySplit) || PassedOver(old(size), old(fl.lists)[n], j, need) then
                s.Next? && drops == old(drops)
              else DropRule(old(drops), s, need, h !in old(away))
      ensures s.Dropped? ==> !Serves(h, old(size)[h], use) && Removed(old(fl.lists), fl.lists, n, h)
      ensures s.Took? ==> s.at >= h && !Unfit(old(size)[h], need, maySplit) && (Clean() ==> s.at == h)
      ensures s.Took? ==> WellPlaced(h, old(size)[h], s.at, use)
      ensures s.Dropped? ==>
                !Clean() && free == old(free) - {h} && SameFree(old(size), size, free) && Kept(old(uses), uses)
      ensures s.Dropped? ==>
                FreePages(size, free, pages) == FreePages(old(size), old(free), pages) - Run(h, old(size)[h])
                             && Run(h, old(size)[h]) <= FreePages(old(size), old(free), pages)
    {
      hide *;
      ListBlock(n, j);
      ChoiceAt(h, n, j, need, use, maySplit);
      var avail := size[h];
      s := Next;
      if !Unfit(avail, need, maySplit) {
        var better := false;
        if avail != need {
          better := Better(h, need, use);
        }
        if !better {
          s := UseOrDrop(h, n, need, use);
        }
      }
    }

    // Whether the search takes block h, the jth of list n.
    lemma ChoiceAt(h: Addr, n: nat, j: nat, need: nat, use: Use, maySplit: bool)
      requires Sound() && bl.Valid() && n < |fl.lists| && j < |fl.lists[n]| && h == fl.lists[n][j]
      requires need == Blocks(use.sz) && need > 0
      ensures h in size && h in fl.next && (fl.next[h] != 0 ==> fl.next[h] in size)
      ensures Unfit(size[h], need, maySplit) <==> size[h] < need || (!maySplit && size[h] != need)
      ensures PassedOver(size, fl.lists[n], j, need) <==>
              fl.next[h] != 0 && need <= size[fl.next[h]] < size[h] && !bl.Listed(fl.next[h], need)
      ensures Useless(h, size[h], use, maySplit) <==> Unfit(size[h], need, maySplit) || !Serves(h, size[h], use)
      ensures Chosen(size, fl.lists[n], j, use, maySplit) <==>
              !Useless(h, size[h], use, maySplit) && !PassedOver(size, fl.lists[n], j, need)
      ensures PassedOver(size, fl.lists[n], j, need) && !Unfit(size[h], need, maySplit) ==>
                j + 1 < |fl.lists[n]| && !Useless(fl.lists[n][j + 1], Sz(size, fl.lists[n][j + 1]), use, maySplit)
    {
      ListBlock(n, j);
      hide Sound, Blocks, Serves, BlackLists.Listed, MustCheck, Effective;
      if PassedOver(size, fl.lists[n], j, need) { StartServes(fl.next[h], size[fl.next[h]], use); }
    }

    // What use of part of free block h leaves.
    ghost predicate TookPart(size0: map<Addr, nat>, free0: set<Addr>, uses0: map<Addr, Use>, h: Addr, at: Addr,
                             need: nat, use: Use)
      reads `size, `free, `uses, `pages
    {
      && h in free0 && h in size0 && h <= at && at + need <= h + size0[h]
      && at !in uses0 && uses == uses0[at := use]
      && FreePages(size, free, pages) == FreePages(size0, free0, pages) - Run(at, need)
      && Run(at, need) <= FreePages(size0, free0, pages)
    }

    lemma NotInUse(h: Addr, x: Addr)
      requires Sound() && h in free && h in size && h <= x < h + size[h]
      ensures x !in uses
    {
    }

    // The whole pages of a free block come back or go.
    lemma BlockAt(h: Addr)
      requires Mapped() && Divided() && h in free
      ensures mem.page > 0 && h in size && h > 0 && size[h] > 0 && mem.unmappedBytes == mem.page * |mem.unmapped|
      ensures var w := Interior(h * HBLKSIZE, size[h] * HBLKSIZE, mem.page);
              if h in away then w <= mem.unmapped && Marked(size, free, away - {h}, mem.page, mem.unmapped - w)
              else w !! mem.unmapped && Marked(size, free, away + {h}, mem.page, mem.unmapped + w)
    {
      BackedToggle(size, pages, away, mem.page, mem.unmapped, h);
    }

    // A block that is to be used gets its memory back.
    method RemapBlock(h: Addr)
      requires Sound() && Mapped() && h in free && h in away
      modifies mem, `away
      ensures Sound() && Mapped() && away == old(away) - {h}
    {
      hide Listed, Coalesced, Marked, Interior, FreePages;
      BlockAt(h);
      mem.Remap(h * HBLKSIZE, size[h] * HBLKSIZE);
      away := away - {h};
    }

    // A block of which the memory is not needed gives it back.
    method UnmapBlock(h: Addr)
      requires unmapping && Sound() && Mapped() && h in free && h !in away
      modifies mem, `away
      ensures Sound() && Mapped() && away == old(away) + {h}
    {
      hide Listed, Coalesced, Marked, Interior, FreePages;
      BlockAt(h);
      mem.Unmap(h * HBLKSIZE, size[h] * HBLKSIZE);
      away := away + {h};
    }

    lemma MappedAt(h: Addr)
      requires Mapped() && h !in away
      ensures away <= free - {h} && Marked(size, free, away, mem.page, mem.unmapped)
      ensures mem.unmappedBytes == mem.page * |mem.unmapped|
    {
    }

    lemma OthersMapped(size1: map<Addr, nat>, free1: set<Addr>, h: Addr)
      requires Marked(size1, free1, away, mem.page, mem.unmapped) && mem.unmappedBytes == mem.page * |mem.unmapped|
      requires away <= free1 - {h} && Others(size1, free1, size, free, h)
      ensures Mapped()
    {
      MarkedFrame(size1, free1, size, free, away, mem.page, mem.unmapped);
    }

    lemma DroppedMapped(size1: map<Addr, nat>, free1: set<Addr>, h: Addr)
      requires Marked(size1, free1, away, mem.page, mem.unmapped) && mem.unmappedBytes == mem.page * |mem.unmapped|
      requires away <= free1 - {h} && free == free1 - {h} && SameFree(size1, size, free)
      ensures Mapped()
    {
      MarkedFrame(size1, free1, size, free, away, mem.page, mem.unmapped);
    }

    method UseOrDrop(h: Addr, n: nat, need: nat, use: Use) returns (s: Step)
      requires Sound() && Mapped() && bl.Valid() && h in free && h in size && n == Bin(size[h]) && h > 0
      requires need == Blocks(use.sz) && 0 < need <= size[h]
      modifies fl, mem, `freeBytes, `on, `free, `size, `odd, `uses, `largeFree, `drops, `away, `last
      ensures Sound() && Mapped()
      ensures s.Took? <==> Serves(h, old(size)[h], use)
      ensures DropRule(old(drops), s, need, h !in old(away))
      ensures s.Dropped? ==> Removed(old(fl.lists), fl.lists, n, h)
      ensures s.Next? ==>
                unchanged(fl) && unchanged(`size, `free, `uses, `freeBytes, `on, `odd, `largeFree, `away) && !Clean()
      ensures s.Took? ==> s.at >= h && TookPart(old(size), old(free), old(uses), h, s.at, need, use)
      ensures s.Took? && Clean() ==> s.at == h
      ensures s.Took? ==> WellPlaced(h, old(size)[h], s.at, use)
      ensures s.Dropped? ==>
                !Clean() && free == old(free) - {h} && SameFree(old(size), size, free) && Kept(old(uses), uses)
      ensures s.Dropped? ==>
                FreePages(size, free, pages) == FreePages(old(size), old(free), pages) - Run(h, old(size)[h])
                             && Run(h, old(size)[h]) <= FreePages(old(size), old(free), pages)
    {
      hide Sound, Mapped, FreePages, Run, Bin, Blocks, SameFree, Kept, BlackLists.Listed, Serves, Removed, MustCheck,
           Effective, WellPlaced;
      var c := Place(h, size[h], need, use, h !in away);
      match c
      case Take(x) =>
        NotInUse(h, x);
        if h in away { RemapBlock(h); }
        ghost var size1, free1 := size, free;
        MappedAt(h);
        TakeAt(h, x, need, n, use);
        OthersMapped(size1, free1, h);
        s := Took(x);
      case Skip =>
        s := Next;
      case Drop =>
        assert bl.Listed(h, 1);
        ghost var size1, free1 := size, free;
        MappedAt(h);
        DropBlock(h, n);
        DroppedMapped(size1, free1, h);
        s := Dropped;
    }

    // The state of the search of list n, with block hbp, number j, to be looked at next.
    ghost predicate Searching(size0: map<Addr, nat>, free0: set<Addr>, uses0: map<Addr, Use>, lists0: seq<seq<Addr>>,
                              n: nat, j: nat, hbp: Addr, use: Use, maySplit: bool, dropped: set<nat>)
      requires bl.Valid()
      reads `size, `free, `uses, `freeBytes, `largeFree, `pages, `on, `odd, `away, `blLimit, fl,
            bl, bl.oldNormal, bl.newNormal, bl.oldStack, bl.newStack
    {
      && Sound() && n < |fl.lists| && j <= |fl.lists[n]| && hbp == At(fl.lists[n], j) &&
           (hbp == 0 <==> j == |fl.lists[n]|)
      && Progress(size0, free0, uses0, size, free, uses, pages, dropped)
      && (Clean() ==>
            dropped == {} && size == size0 && free == free0 && uses == uses0 && fl.lists == lists0)
      && Seen(size, fl.lists[n], j, use, maySplit) && RightlyGone(size0, free0, free, use)
    }

    // What one search of list n comes to: part of free block `home` is used, or, if r is 0, nothing suits.
    ghost predicate Searched(size0: map<Addr, nat>, free0: set<Addr>, uses0: map<Addr, Use>, lists0: seq<seq<Addr>>,
                             n: nat, r: Addr, home: Addr, use: Use, maySplit: bool, dropped: set<nat>)
      requires bl.Valid()
      reads `size, `free, `uses, `freeBytes, `largeFree, `pages, `on, `odd, `away, `blLimit, fl,
            bl, bl.oldNormal, bl.newNormal, bl.oldStack, bl.newStack
    {
      var need := Blocks(use.sz);
      var taken := if r == 0 then {} else Run(r, need);
      && Sound() && Kept(uses0, uses)
      && FreePages(size, free, pages) == FreePages(size0, free0, pages) - dropped - taken
      && dropped + taken <= FreePages(size0, free0, pages)
      && (r != 0 ==>
            && r in uses && uses[r] == use && r !in uses0
            && home in free0 && home in size0 && home <= r && r + need <= home + size0[home]
            && !Unfit(size0[home], need, maySplit) && Serves(home, size0[home], use) && n == Bin(size0[home]))
      && (r == 0 ==>
            && Progress(size0, free0, uses0, size, free, uses, pages, dropped) && RightlyGone(size0, free0, free, use)
            && n < |fl.lists| && Seen(size, fl.lists[n], |fl.lists[n]|, use, maySplit))
      && (Clean() ==>
            && dropped == {} && (r != 0 ==> r == home)
            && (r == 0 ==> size == size0 && free == free0 && uses == uses0 && fl.lists == lists0))
    }

    // The block that the search looks at.
    lemma SearchBlock(size0: map<Addr, nat>, free0: set<Addr>, uses0: map<Addr, Use>, lists0: seq<seq<Addr>>,
                      n: nat, j: nat, hbp: Addr, use: Use, maySplit: bool, dropped: set<nat>)
      requires bl.Valid() && hbp != 0 && Searching(size0, free0, uses0, lists0, n, j, hbp, use, maySplit, dropped)
      ensures Sound() && n < |fl.lists| && j < |fl.lists[n]| && hbp == fl.lists[n][j] && hbp in free && hbp in size
      ensures hbp > 0 && n <= N_HBLK_FLS
      ensures hbp in fl.next && fl.next[hbp] == At(fl.lists[n], j + 1)
      ensures fl.next[hbp] == 0 <==> j + 1 == |fl.lists[n]|
      ensures n == Bin(size[hbp]) && hbp in fl.prev
      ensures Progress(size0, free0, uses0, size, free, uses, pages, dropped) && (Clean() ==> dropped == {})
      ensures fl.prev[hbp] == (if j == 0 then 0 else fl.lists[n][j - 1])
      ensures Distinct(fl.lists[n]) && forall a <- fl.lists[n] :: a > 0 && a in free
      ensures Seen(size, fl.lists[n], j, use, maySplit) && RightlyGone(size0, free0, free, use)
    {
      ListBlock(n, j);
      fl.HeadOf(n);
      assert OnList(size, odd, on, fl.lists[n], n);
      if j > 0 { ListBlock(n, j - 1); }
      hide Seen, RightlyGone, Bin;
    }

    lemma NextKeeps(size0: map<Addr, nat>, free0: set<Addr>, uses0: map<Addr, Use>, lists0: seq<seq<Addr>>,
                    n: nat, j: nat, hbp: Addr, use: Use, maySplit: bool, dropped: set<nat>)
      requires bl.Valid() && hbp != 0 && Searching(size0, free0, uses0, lists0, n, j, hbp, use, maySplit, dropped)
      requires || (hbp in size && Useless(hbp, size[hbp], use, maySplit))
               || (n < |fl.lists| && j + 1 < |fl.lists[n]|
                   && !Useless(fl.lists[n][j + 1], Sz(size, fl.lists[n][j + 1]), use, maySplit))
      ensures n < |fl.lists| && j < |fl.lists[n]| && hbp in fl.next
      ensures Searching(size0, free0, uses0, lists0, n, j + 1, fl.next[hbp], use, maySplit, dropped)
    {
      SearchBlock(size0, free0, uses0, lists0, n, j, hbp, use, maySplit, dropped);
      hide Progress, Seen, Useless, Sound, RightlyGone;
      SeenNext(fl.lists[n], j, use, maySplit);
    }

    lemma TookSearched(size0: map<Addr, nat>, free0: set<Addr>, uses0: map<Addr, Use>, lists0: seq<seq<Addr>>,
                       size1: map<Addr, nat>, free1: set<Addr>, uses1: map<Addr, Use>,
                       n: nat, h: Addr, at: Addr, use: Use, maySplit: bool, dropped: set<nat>)
      requires bl.Valid() && Sound() && Progress(size0, free0, uses0, size1, free1, uses1, pages, dropped)
      requires Clean() ==> dropped == {} && at == h
      requires at != 0 && h in free1 && h in size1 && TookPart(size1, free1, uses1, h, at, Blocks(use.sz), use)
      requires !Unfit(size1[h], Blocks(use.sz), maySplit) && Serves(h, size1[h], use) && n == Bin(size1[h])
      ensures Searched(size0, free0, uses0, lists0, n, at, h, use, maySplit, dropped)
    {
      hide Sound, FreePages, Run, Blocks, Seen, Clean, Serves, RightlyGone, Bin;
      NotKept(uses0, uses1, at);
      KeptAdd(uses0, uses1, at, use);
    }

    // Where to go on after a block has been dropped: behind its predecessor, or at the head of the list.
    method AfterDrop(n: nat, prev: Addr, ghost s: seq<Addr>, ghost j: nat)
      returns (hbp: Addr)
      requires Sound() && n < |fl.lists| && j < |s| && fl.lists[n] == Without(s, j)
      requires prev == (if j == 0 then 0 else s[j - 1]) && forall a <- s :: a > 0
      ensures j <= |fl.lists[n]| && hbp == At(fl.lists[n], j) && (hbp == 0 <==> j == |fl.lists[n]|)
    {
      hide Counted, Threaded, Tiled, FreePages, Fits, NoAdjacent, OnList, Bin;
      fl.HeadOf(n);
      assert j > 0 ==> s[j - 1] in s;
      if prev == 0 {
        hbp := fl.heads[n];
      } else {
        ListBlock(n, j - 1);
        hbp := fl.next[prev];
      }
    }

    lemma RemovedAt(lists0: seq<seq<Addr>>, lists: seq<seq<Addr>>, n: nat, j: nat)
      requires n < |lists0| && j < |lists0[n]| && Distinct(lists0[n]) && Removed(lists0, lists, n, lists0[n][j])
      ensures n < |lists| && lists[n] == Without(lists0[n], j)
    {
    }

    lemma ListFree(n: nat)
      requires Sound() && n < |fl.lists|
      ensures forall a <- fl.lists[n] :: a in free
    {
      assert OnList(size, odd, on, fl.lists[n], n);
    }

    method StepOn(ghost size0: map<Addr, nat>, ghost free0: set<Addr>, ghost uses0: map<Addr, Use>,
                  ghost lists0: seq<seq<Addr>>,
                  n: nat, ghost j: nat, h: Addr, use: Use, maySplit: bool, ghost dropped: set<nat>)
      returns (hbp: Addr)
      requires bl.Valid() && h != 0 && Searching(size0, free0, uses0, lists0, n, j, h, use, maySplit, dropped)
      requires || (h in size && Useless(h, size[h], use, maySplit))
               || (n < |fl.lists| && j + 1 < |fl.lists[n]|
                   && !Useless(fl.lists[n][j + 1], Sz(size, fl.lists[n][j + 1]), use, maySplit))
      ensures Searching(size0, free0, uses0, lists0, n, j + 1, hbp, use, maySplit, dropped)
      ensures Smaller(free, fl.lists, j, free, fl.lists, j + 1, n)
    {
      NextKeeps(size0, free0, uses0, lists0, n, j, h, use, maySplit, dropped);
      hbp := fl.next[h];
    }

    method DropOn(ghost size0: map<Addr, nat>, ghost free0: set<Addr>, ghost uses0: map<Addr, Use>,
                  ghost lists0: seq<seq<Addr>>,
                  ghost size1: map<Addr, nat>, ghost free1: set<Addr>, ghost uses1: map<Addr, Use>,
                  ghost lists1: seq<seq<Addr>>,
                  ghost j: nat, n: nat, ghost h: Addr, prev: Addr, ghost use: Use, ghost maySplit: bool,
                  ghost dropped: set<nat>)
      returns (hbp: Addr)
      requires bl.Valid() && Sound() && n <= N_HBLK_FLS && !Clean() && h in free1 && h in size1
      requires Progress(size0, free0, uses0, size1, free1, uses1, pages, dropped)
      requires free == free1 - {h} && SameFree(size1, size, free) && Kept(uses1, uses)
      requires FreePages(size, free, pages) == FreePages(size1, free1, pages) - Run(h, size1[h])
      requires Run(h, size1[h]) <= FreePages(size1, free1, pages)
      requires n < |lists1| && j < |lists1[n]| && h == lists1[n][j] && prev == (if j == 0 then 0 else lists1[n][j - 1])
      requires Distinct(lists1[n]) && (forall a <- lists1[n] :: a > 0 && a in free1) && Removed(lists1, fl.lists, n, h)
      requires Seen(size1, lists1[n], j, use, maySplit) && RightlyGone(size0, free0, free1, use)
      requires !Serves(h, size1[h], use)
      ensures Searching(size0, free0, uses0, lists0, n, j, hbp, use, maySplit, dropped + Run(h, size1[h]))
      ensures Smaller(free1, lists1, j, free, fl.lists, j, n)
    {
      hide *;
      ListCount();
      FewerFree(free1, h);
      RemovedAt(lists1, fl.lists, n, j);
      ListFree(n);
      ProgressDrop(size0, free0, uses0, size1, free1, uses1, size, free, uses, pages, dropped, h);
      ProgressSame(size0, free0, uses0, size1, free1, uses1, pages, dropped);
      GoneMore(size0, free0, size1, free1, h, use);
      SizeAt(size1, h);
      SeenDropped(size1, lists1[n], j, use, maySplit);
      hbp := AfterDrop(n, prev, lists1[n], j);
      IsSearching(size0, free0, uses0, lists0, n, j, hbp, use, maySplit, dropped + Run(h, size1[h]));
      IsSmaller(free1, lists1, j, free, fl.lists, j, n);
    }

    lemma IsSearching(size0: map<Addr, nat>, free0: set<Addr>, uses0: map<Addr, Use>, lists0: seq<seq<Addr>>,
                      n: nat, j: nat, hbp: Addr, use: Use, maySplit: bool, dropped: set<nat>)
      requires bl.Valid() && !Clean() && Sound() && n < |fl.lists| && j <= |fl.lists[n]|
      requires hbp == At(fl.lists[n], j) && (hbp == 0 <==> j == |fl.lists[n]|)
      requires Progress(size0, free0, uses0, size, free, uses, pages, dropped)
      requires Seen(size, fl.lists[n], j, use, maySplit) && RightlyGone(size0, free0, free, use)
      ensures Searching(size0, free0, uses0, lists0, n, j, hbp, use, maySplit, dropped)
    {
      hide Sound, Progress, Clean, Seen, RightlyGone;
    }

    lemma ListCount()
      requires Sound()
      ensures |fl.lists| == |fl.heads| == N_HBLK_FLS + 1
    {
    }

    lemma StartSearch(n: nat, use: Use, maySplit: bool)
      requires bl.Valid() && Sound() && n < |fl.lists|
      ensures n < |fl.heads| && Searching(size, free, uses, fl.lists, n, 0, fl.heads[n], use, maySplit, {})
    {
      hide Binned, Counted, Threaded, Tiled, FreePages, Fits, NoAdjacent, Bin, SameFree, Kept, Serves;
      fl.HeadOf(n);
      FreeSized();
      KeptSelf(uses);
    }

    lemma EndSearch(size0: map<Addr, nat>, free0: set<Addr>, uses0: map<Addr, Use>, lists0: seq<seq<Addr>>,
                    n: nat, j: nat, home: Addr, use: Use, maySplit: bool, dropped: set<nat>)
      requires bl.Valid() && Searching(size0, free0, uses0, lists0, n, j, 0, use, maySplit, dropped)
      ensures Searched(size0, free0, uses0, lists0, n, 0, home, use, maySplit, dropped)
      ensures n < |fl.lists| && j == |fl.lists[n]|
    {
      hide FreePages, Bin, Blocks, Sound, Run, Serves, Seen, RightlyGone;
    }

    // The block that the search looks at in the list as it was.
    lemma TrailHere(size0: map<Addr, nat>, free0: set<Addr>, uses0: map<Addr, Use>, s0: seq<Addr>, k: nat, n: nat,
                    j: nat, use: Use, maySplit: bool, dropped: set<nat>)
      requires bl.Valid() && Trail(size0, s0, k, fl.lists, n, j, use, maySplit) && j < |fl.lists[n]|
      requires Progress(size0, free0, uses0, size, free, uses, pages, dropped) && forall a <- fl.lists[n] :: a in free
      ensures k < |s0| && s0[k] == fl.lists[n][j] && s0[k + 1..] == fl.lists[n][j + 1..]
      ensures Chosen(size, fl.lists[n], j, use, maySplit) <==> Chosen(size0, s0, k, use, maySplit)
      ensures Sz(size0, s0[k]) == Sz(size, s0[k])
    {
      assert fl.lists[n][j] in fl.lists[n];
      hide Trail, Chosen, FreePages, Kept;
      TrailOn(size0, s0, k, size, free, fl.lists, n, j, use, maySplit);
    }

    // One turn of the loop of GC_allochblk_nth.
    method SearchStep(ghost size0: map<Addr, nat>, ghost free0: set<Addr>, ghost uses0: map<Addr, Use>,
                      ghost lists0: seq<seq<Addr>>,
                      n: nat, ghost j0: nat, hbp0: Addr, use: Use, maySplit: bool, ghost dropped0: set<nat>,
                      ghost s0: seq<Addr>, ghost k0: nat)
      returns (r: Addr, hbp: Addr, ghost j: nat, ghost home: Addr, ghost dropped: set<nat>, ghost k: nat)
      requires bl.Valid() && use.sz > 0 && hbp0 != 0
      requires Searching(size0, free0, uses0, lists0, n, j0, hbp0, use, maySplit, dropped0)
      requires Mapped() && Trail(size0, s0, k0, fl.lists, n, j0, use, maySplit)
      modifies fl, mem, `freeBytes, `on, `free, `size, `odd, `uses, `largeFree, `drops, `away, `last
      ensures Mapped()
      ensures r == 0 ==> Searching(size0, free0, uses0, lists0, n, j, hbp, use, maySplit, dropped)
      ensures r == 0 ==> Smaller(old(free), old(fl.lists), j0, free, fl.lists, j, n)
      ensures r != 0 ==> Searched(size0, free0, uses0, lists0, n, r, home, use, maySplit, dropped)
      ensures r == 0 ==> Trail(size0, s0, k, fl.lists, n, j, use, maySplit)
      ensures r != 0 ==> WellPlaced(home, Sz(size0, home), r, use) && Picks(size0, s0, r, home, use, maySplit)
    {
      hide *;
      r, j, home, dropped, k := 0, j0 + 1, hbp0, dropped0, k0 + 1;
      SearchBlock(size0, free0, uses0, lists0, n, j0, hbp0, use, maySplit, dropped0);
      NeedPositive(use);
      ghost var size1, free1, uses1, lists1 := size, free, uses, fl.lists;
      var prev := fl.prev[hbp0];
      TrailHere(size0, free0, uses0, s0, k0, n, j0, use, maySplit, dropped0);
      var s := TryBlock(hbp0, n, j0, Blocks(use.sz), use, maySplit);
      match s
      case Next =>
        TrailNext(size0, s0, k0, lists1, n, j0, use, maySplit);
        hbp := StepOn(size0, free0, uses0, lists0, n, j0, hbp0, use, maySplit, dropped0);
      case Took(x) =>
        r, hbp := x, 0;
        SizeAt(size1, hbp0);
        TrailTook(size0, s0, k0, lists1, n, j0, x, use, maySplit);
        TookSearched(size0, free0, uses0, lists0, size1, free1, uses1, n, hbp0, x, use, maySplit, dropped0);
      case Dropped =>
        j := j0;
        hbp := DropOn(size0, free0, uses0, lists0, size1, free1, uses1, lists1, j0, n, hbp0, prev, use, maySplit,
            dropped0);
        RemovedAt(lists1, fl.lists, n, j0);
        TrailDropped(size0, s0, k0, lists1, fl.lists, n, j0, use, maySplit);
        dropped := dropped0 + Run(hbp0, size1[hbp0]);
    }

    // GC_allochblk_nth: search list n for a block of the given use.  The recursive call of the source after
    // dropping the first block of the list is another turn of the loop here.
    method AllocNth(use: Use, n: nat, maySplit: bool) returns (r: Addr, ghost home: Addr, ghost dropped: set<nat>)
      requires Sound() && bl.Valid() && n <= N_HBLK_FLS && use.sz > 0
      requires Mapped()
      modifies fl, mem, `freeBytes, `on, `free, `size, `odd, `uses, `largeFree, `drops, `away, `last
      ensures Mapped()
      ensures Searched(old(size), old(free), old(uses), old(fl.lists), n, r, home, use, maySplit, dropped)
      ensures r != 0 ==> WellPlaced(home, Sz(old(size), home), r, use)
      ensures n < |old(fl.lists)| && Picks(old(size), old(fl.lists)[n], r, home, use, maySplit)
    {
      ghost var size0, free0, uses0, lists0 := size, free, uses, fl.lists;
      r, home, dropped := 0, 0, {};
      ListCount();
      var hbp := fl.heads[n];
      ghost var j: nat := 0;
      StartSearch(n, use, maySplit);
      ghost var s0, k := fl.lists[n], 0;
      hide *;
      TrailStart(size0, lists0, n, use, maySplit);
      while hbp != 0 && r == 0
        invariant Mapped()
        invariant r == 0 ==> Trail(size0, s0, k, fl.lists, n, j, use, maySplit)
        invariant r == 0 ==> Searching(size0, free0, uses0, lists0, n, j, hbp, use, maySplit, dropped)
        invariant r != 0 ==> Searched(size0, free0, uses0, lists0, n, r, home, use, maySplit, dropped)
        invariant r != 0 ==> WellPlaced(home, Sz(size0, home), r, use) && Picks(size0, s0, r, home, use, maySplit)
        decreases r == 0, |free|, if n < |fl.lists| then |fl.lists[n]| - j else 0
      {
        ghost var free1, lists1, j1 := free, fl.lists, j;
        r, hbp, j, home, dropped, k :=
          SearchStep(size0, free0, uses0, lists0, n, j, hbp, use, maySplit, dropped, s0, k);
        if r == 0 { Shrinks(free1, lists1, j1, free, fl.lists, j, n); }
      }
      if r == 0 {
        EndSearch(size0, free0, uses0, lists0, n, j, home, use, maySplit, dropped);
        TrailEnds(size0, s0, k, fl.lists, n, j, home, use, maySplit);
      }
    }

    // GC_enough_large_bytes_left: the last list from which on the free blocks, with what is allocated, make
    // up what was allocated at most so far (the comment says "more than", the code "at least").
    method EnoughLargeBytesLeft(allocd: nat, max: nat) returns (n: nat)
      requires |freeBytes| == N_HBLK_FLS + 1
      ensures n <= N_HBLK_FLS && (n > 0 ==> allocd + Tail(freeBytes, n) >= max)
      ensures forall k :: n < k <= N_HBLK_FLS ==> allocd + Tail(freeBytes, k) < max
    {
      n := N_HBLK_FLS;
      var bytes := allocd;
      while true
        invariant n <= N_HBLK_FLS && bytes == allocd + Tail(freeBytes, n + 1)
        invariant forall k :: n < k <= N_HBLK_FLS ==> allocd + Tail(freeBytes, k) < max
        decreases n
      {
        bytes := bytes + freeBytes[n];
        if bytes >= max || n == 0 {
          return;
        }
        n := n - 1;
      }
    }

    // No free block on the lists before i can serve.
    ghost predicate NoneBefore(sizes: map<Addr, nat>, blocks: set<Addr>, i: nat, use: Use)
      requires bl.Valid()
      reads `blLimit, bl, bl.oldNormal, bl.newNormal, bl.oldStack, bl.newStack
    {
      forall h <- blocks :: h in sizes && Serves(h, sizes[h], use) ==> Bin(sizes[h]) >= i
    }

    lemma NoneKept(size1: map<Addr, nat>, free1: set<Addr>, i: nat, use: Use)
      requires bl.Valid() && NoneBefore(size1, free1, i, use) && free <= free1 && SameFree(size1, size, free)
      ensures NoneBefore(size, free, i, use)
    {
      hide Bin, Serves;
    }

    // What GC_allochblk has achieved: r is the start of need blocks inside block `home`, free before, or 0.
    ghost predicate Allocated(size0: map<Addr, nat>, free0: set<Addr>, uses0: map<Addr, Use>, r: Addr, home: Addr,
                              use: Use, dropped: set<nat>)
      reads `size, `free, `uses, `pages
    {
      var taken := if r == 0 then {} else Run(r, Blocks(use.sz));
      && Kept(uses0, uses)
      && FreePages(size, free, pages) == FreePages(size0, free0, pages) - dropped - taken
      && dropped + taken <= FreePages(size0, free0, pages)
      && (r != 0 ==>
            && r in uses && uses[r] == use && r !in uses0
            && home in free0 && home in size0 && home <= r && r + Blocks(use.sz) <= home + size0[home])
    }

    // Nothing has been found yet.
    ghost predicate SoFar(size0: map<Addr, nat>, free0: set<Addr>, uses0: map<Addr, Use>, use: Use, dropped: set<nat>)
      requires bl.Valid()
      reads `size, `free, `uses, `freeBytes, `largeFree, `pages, `on, `odd, `away, `blLimit, fl,
            bl, bl.oldNormal, bl.newNormal, bl.oldStack, bl.newStack
    {
      && Sound() && Progress(size0, free0, uses0, size, free, uses, pages, dropped) &&
           RightlyGone(size0, free0, free, use)
      && (Clean() ==> dropped == {} && size == size0 && free == free0 && uses == uses0)
    }

    // A block has been found.
    ghost predicate Granted(size0: map<Addr, nat>, free0: set<Addr>, uses0: map<Addr, Use>, r: Addr, home: Addr,
                            use: Use, dropped: set<nat>)
      requires bl.Valid()
      reads `size, `free, `uses, `freeBytes, `largeFree, `pages, `on, `odd, `away, `blLimit, fl,
            bl, bl.oldNormal, bl.newNormal, bl.oldStack, bl.newStack
    {
      && r != 0 && Sound() && Allocated(size0, free0, uses0, r, home, use, dropped) && Serves(home, size0[home], use)
      && (Clean() ==> dropped == {} && r == home)
    }

    // Nothing on list i serves.
    ghost predicate NoneOnList(i: nat, use: Use, maySplit: bool)
      requires bl.Valid()
      reads `size, `free, `blLimit, bl, bl.oldNormal, bl.newNormal, bl.oldStack, bl.newStack
    {
      forall h <- free :: h in size && Bin(size[h]) == i ==> Useless(h, size[h], use, maySplit)
    }

    // Block home was found on list i.
    ghost predicate Reached(size0: map<Addr, nat>, home: Addr, i: nat, use: Use, maySplit: bool) {
      home in size0 && (if maySplit then Bin(size0[home]) == i else size0[home] == Blocks(use.sz))
    }

    lemma ReachedWithin(size0: map<Addr, nat>, home: Addr, i: nat, n: nat, use: Use, maySplit: bool)
      requires Reached(size0, home, i, use, maySplit) && (maySplit ==> i <= n)
      ensures home in size0 && Within(size0[home], n, use)
    {
    }

    lemma ReachedExact(size0: map<Addr, nat>, home: Addr, i: nat, use: Use)
      requires Reached(size0, home, i, use, false)
      ensures Sz(size0, home) == Blocks(use.sz)
    {
    }

    // No block of exactly the right size can serve.
    ghost predicate NoExact(sizes: map<Addr, nat>, blocks: set<Addr>, use: Use)
      requires bl.Valid()
      reads `blLimit, bl, bl.oldNormal, bl.newNormal, bl.oldStack, bl.newStack
    {
      forall h <- blocks :: h in sizes && Serves(h, sizes[h], use) ==> sizes[h] != Blocks(use.sz)
    }

    lemma NoExactKept(size1: map<Addr, nat>, free1: set<Addr>, use: Use)
      requires bl.Valid() && NoExact(size1, free1, use) && free <= free1 && SameFree(size1, size, free)
      ensures NoExact(size, free, use)
    {
      hide Blocks, Serves;
    }

    lemma NoExactNow(use: Use)
      requires bl.Valid() && NoneOnList(Bin(Blocks(use.sz)), use, false)
      ensures NoExact(size, free, use)
    {
      hide Blocks, Serves, Bin;
    }

    // Block home is of the right size, or there is no block of that size that can serve, and none on an earlier list.
    ghost predicate Nearest(size0: map<Addr, nat>, free0: set<Addr>, home: Addr, use: Use)
      requires bl.Valid()
      reads `blLimit, bl, bl.oldNormal, bl.newNormal, bl.oldStack, bl.newStack
    {
      || Sz(size0, home) == Blocks(use.sz)
      || (NoExact(size0, free0, use) && NoneBefore(size0, free0, Bin(Sz(size0, home)), use))
    }

    // What holds of the blocks left held of all, since those that are gone could not serve.
    lemma NearestSoFar(size0: map<Addr, nat>, free0: set<Addr>, uses0: map<Addr, Use>, i: nat, use: Use,
                       dropped: set<nat>)
      requires bl.Valid() && SoFar(size0, free0, uses0, use, dropped) && NoneBefore(size, free, i, use)
      requires NoExact(size, free, use)
      ensures NoneBefore(size0, free0, i, use) && NoExact(size0, free0, use)
    {
      hide Serves, Blocks, Bin, Sound, FreePages, Kept;
    }

    lemma IsNearest(size0: map<Addr, nat>, free0: set<Addr>, home: Addr, i: nat, use: Use)
      requires bl.Valid() && NoneBefore(size0, free0, i, use) && NoExact(size0, free0, use)
      ensures Reached(size0, home, i, use, true) ==> Nearest(size0, free0, home, use)
    {
      hide NoneBefore, NoExact, Bin;
    }

    lemma ExactNearest(size0: map<Addr, nat>, free0: set<Addr>, home: Addr, use: Use)
      requires bl.Valid() && Sz(size0, home) == Blocks(use.sz)
      ensures Nearest(size0, free0, home, use)
    {
    }

    // One list of the search in GC_allochblk.
    method AllocOn(ghost size0: map<Addr, nat>, ghost free0: set<Addr>, ghost uses0: map<Addr, Use>, i: nat, use: Use,
                   maySplit: bool, ghost dropped0: set<nat>)
      returns (r: Addr, ghost home: Addr, ghost dropped: set<nat>)
      requires bl.Valid() && i <= N_HBLK_FLS && use.sz > 0 && SoFar(size0, free0, uses0, use, dropped0)
      requires Mapped()
      modifies fl, mem, `freeBytes, `on, `free, `size, `odd, `uses, `largeFree, `drops, `away, `last
      ensures Mapped()
      ensures r != 0 ==> Granted(size0, free0, uses0, r, home, use, dropped) && Reached(size0, home, i, use, maySplit)
      ensures r != 0 ==> WellPlaced(home, Sz(size0, home), r, use)
      ensures r == 0 ==> SoFar(size0, free0, uses0, use, dropped)
      ensures r == 0 ==> NoneOnList(i, use, maySplit) && free <= old(free) && SameFree(old(size), size, free)
      ensures dropped0 <= dropped
    {
      hide *;
      ghost var size1, free1, uses1, lists1 := size, free, uses, fl.lists;
      SoFarSound(size0, free0, uses0, use, dropped0);
      ghost var d;
      r, home, d := AllocNth(use, i, maySplit);
      dropped := dropped0 + d;
      AllocStep(size0, free0, uses0, size1, free1, uses1, lists1, i, r, home, use, maySplit, dropped0, d);
    }

    lemma AllocStep(size0: map<Addr, nat>, free0: set<Addr>, uses0: map<Addr, Use>,
                    size1: map<Addr, nat>, free1: set<Addr>, uses1: map<Addr, Use>, lists1: seq<seq<Addr>>,
                    i: nat, r: Addr, home: Addr, use: Use, maySplit: bool, dropped0: set<nat>, d: set<nat>)
      requires bl.Valid() && Progress(size0, free0, uses0, size1, free1, uses1, pages, dropped0)
      requires RightlyGone(size0, free0, free1, use)
      requires Clean() ==> dropped0 == {} && size1 == size0 && free1 == free0 && uses1 == uses0
      requires Searched(size1, free1, uses1, lists1, i, r, home, use, maySplit, d)
      ensures r != 0 ==>
                Granted(size0, free0, uses0, r, home, use, dropped0 + d) && Reached(size0, home, i, use, maySplit)
      ensures r == 0 ==> SoFar(size0, free0, uses0, use, dropped0 + d)
      ensures r == 0 ==> NoneOnList(i, use, maySplit) && free <= free1 && SameFree(size1, size, free)
      ensures r != 0 ==> Sz(size0, home) == Sz(size1, home)
    {
      hide Sound, FreePages, Run, Blocks, Seen, Clean, SameFree, Kept, Bin, NoneOnList, RightlyGone, Serves;
      KeptTrans(uses0, uses1, uses);
      if r == 0 {
        SameFreeTrans(size0, size1, size, free1, free);
        GoneTrans(size0, free0, size1, free1, use);
        NoneOn(i, use, maySplit);
      } else {
        HomeSame(size0, size1, free1, home);
        NotKept(uses0, uses1, r);
      }
    }

    // GC_allochblk: find a block for objects of use.sz bytes, first one of exactly the right size, then by splitting
    // blocks on the lists up to a limit.  When the limit is computed, the free blocks are those of `left`: all that
    // there were before the call but the ones dropped by then.
    method Alloc(use: Use, limit: Limit)
      returns (r: Addr, ghost home: Addr, ghost dropped: set<nat>, ghost n: nat, ghost left: set<Addr>)
      requires Valid() && bl.Valid() && use.sz > 0
      modifies fl, mem, `freeBytes, `on, `free, `size, `odd, `uses, `largeFree, `drops, `away, `last
      ensures bl.Valid()
      ensures Valid() && Allocated(old(size), old(free), old(uses), r, home, use, dropped)
      ensures Clean() ==> dropped == {} && (r != 0 ==> r == home)
      ensures r != 0 ==> WellPlaced(home, Sz(old(size), home), r, use) && Nearest(old(size), old(free), home, use)
      ensures r != 0 ==> home in old(free) && home in old(size) && Serves(home, old(size)[home], use)
      ensures r != 0 <==> Blocks(use.sz) < MAX_BLOCKS && Servable(old(size), old(free), n, use)
      ensures n <= N_HBLK_FLS && (limit == AllLists ==> n == N_HBLK_FLS) && (limit == NoList ==> n == 0)
      ensures Clean() && r == 0 && limit == AllLists && Blocks(use.sz) < MAX_BLOCKS ==>
                NoFit(old(size), old(free), Blocks(use.sz))
      ensures left <= old(free) && RightlyGone(old(size), old(free), left, use)
      ensures dropped == {} ==> left == old(free)
      ensures Blocks(use.sz) < MAX_BLOCKS && (r == 0 || Sz(old(size), home) != Blocks(use.sz)) ==>
                IsLimit(limit, old(size), left, pages, n)
    {
      hide *;
      ghost var clean := Clean();
      FreeInSize();
      if clean { CleanServable(size, free, use); }
      StartAlloc(use);
      if Blocks(use.sz) >= MAX_BLOCKS {
        r, home, dropped, n, left := 0, 0, {}, if limit == AllLists then N_HBLK_FLS else 0, free;
        NoneGone(use);
        NotGranted(old(size), old(free), old(uses), home, n, use, {});
      } else {
        r, home, dropped, n, left := AllocSized(use, limit);
      }
      StillValid();
    }

    method AllocSized(use: Use, limit: Limit)
      returns (r: Addr, ghost home: Addr, ghost dropped: set<nat>, ghost n: nat, ghost left: set<Addr>)
      requires bl.Valid() && use.sz > 0 && SoFar(size, free, uses, use, {})
      requires Mapped()
      modifies fl, mem, `freeBytes, `on, `free, `size, `odd, `uses, `largeFree, `drops, `away, `last
      ensures Mapped()
      ensures Sound() && Allocated(old(size), old(free), old(uses), r, home, use, dropped)
      ensures Clean() ==> dropped == {} && (r != 0 ==> r == home)
      ensures r != 0 ==> WellPlaced(home, Sz(old(size), home), r, use) && Nearest(old(size), old(free), home, use)
      ensures r != 0 ==> home in old(free) && home in old(size) && Serves(home, old(size)[home], use)
      ensures r != 0 <==> Servable(old(size), old(free), n, use)
      ensures n <= N_HBLK_FLS && (limit == AllLists ==> n == N_HBLK_FLS) && (limit == NoList ==> n == 0)
      ensures left <= old(free) && RightlyGone(old(size), old(free), left, use)
      ensures dropped == {} ==> left == old(free)
      ensures r == 0 || Sz(old(size), home) != Blocks(use.sz) ==> IsLimit(limit, old(size), left, pages, n)
    {
      hide *;
      r, home, dropped, n, left := Search(use, limit);
      if r == 0 {
        NotGranted(old(size), old(free), old(uses), home, n, use, dropped);
      } else {
        IsGranted(old(size), old(free), old(uses), r, home, n, use, dropped);
      }
    }

    method Search(use: Use, limit: Limit)
      returns (r: Addr, ghost home: Addr, ghost dropped: set<nat>, ghost n: nat, ghost left: set<Addr>)
      requires bl.Valid() && use.sz > 0 && SoFar(size, free, uses, use, {})
      requires Mapped()
      modifies fl, mem, `freeBytes, `on, `free, `size, `odd, `uses, `largeFree, `drops, `away, `last
      ensures Mapped()
      ensures r != 0 ==> Granted(old(size), old(free), old(uses), r, home, use, dropped)
      ensures r != 0 ==> home in old(size) && Within(old(size)[home], n, use)
      ensures n <= N_HBLK_FLS && (limit == AllLists ==> n == N_HBLK_FLS) && (limit == NoList ==> n == 0)
      ensures r != 0 ==> WellPlaced(home, Sz(old(size), home), r, use) && Nearest(old(size), old(free), home, use)
      ensures r == 0 ==> SoFar(old(size), old(free), old(uses), use, dropped)
      ensures r == 0 ==> NoneBefore(size, free, n + 1, use) && NoExact(size, free, use)
      ensures left <= old(free) && RightlyGone(old(size), old(free), left, use)
      ensures dropped == {} ==> left == old(free)
      ensures r == 0 || Sz(old(size), home) != Blocks(use.sz) ==> IsLimit(limit, old(size), left, pages, n)
    {
      hide *;
      ghost var size0, free0, uses0 := size, free, uses;
      left := free;
      n := if limit == AllLists then N_HBLK_FLS else 0;
      NoneGone(use);
      SoFarSound(size0, free0, uses0, use, {});
      SoundDivided();
      var start := Bin(Blocks(use.sz));
      BinMonotone(Blocks(use.sz), Blocks(use.sz));
      NoneBeforeStart(use);
      r, home, dropped := AllocOn(size0, free0, uses0, start, use, false, {});
      if r != 0 {
        ReachedWithin(size0, home, start, n, use, false);
        ReachedExact(size0, home, start, use);
        ExactNearest(size0, free0, home, use);
      } else {
        NoneKept(size0, free0, start, use);
        r, home, dropped, n, left := SearchFurther(size0, free0, uses0, start, use, limit, dropped);
      }
    }

    // There is no block of exactly the right size; larger ones may be split.
    method SearchFurther(ghost size0: map<Addr, nat>, ghost free0: set<Addr>, ghost uses0: map<Addr, Use>,
                         start0: nat, use: Use, limit: Limit, ghost dropped0: set<nat>)
      returns (r: Addr, ghost home: Addr, ghost dropped: set<nat>, ghost n: nat, ghost left: set<Addr>)
      requires bl.Valid() && use.sz > 0 && SoFar(size0, free0, uses0, use, dropped0) && Mapped()
      requires start0 == Bin(Blocks(use.sz)) && NoneOnList(start0, use, false) && NoneBefore(size, free, start0, use)
      requires Tiled(size0, pages) && free0 <= size0.Keys
      modifies fl, mem, `freeBytes, `on, `free, `size, `odd, `uses, `largeFree, `drops, `away, `last
      ensures Mapped()
      ensures r != 0 ==> Granted(size0, free0, uses0, r, home, use, dropped)
      ensures r != 0 ==> home in size0 && Within(size0[home], n, use)
      ensures n <= N_HBLK_FLS && (limit == AllLists ==> n == N_HBLK_FLS) && (limit == NoList ==> n == 0)
      ensures r != 0 ==> WellPlaced(home, Sz(size0, home), r, use) && Nearest(size0, free0, home, use)
      ensures r == 0 ==> SoFar(size0, free0, uses0, use, dropped)
      ensures r == 0 ==> NoneBefore(size, free, n + 1, use) && NoExact(size, free, use)
      ensures left <= free0 && RightlyGone(size0, free0, left, use) && (dropped == {} ==> left == free0)
      ensures IsLimit(limit, size0, left, pages, n)
    {
      hide *;
      BinMonotone(Blocks(use.sz), Blocks(use.sz));
      SoFarLeft(size0, free0, uses0, use, dropped0);
      if dropped0 == {} { NoneLeft(size0, free0, size, free, pages); }
      left := free;
      NoExactNow(use);
      SoFarSound(size0, free0, uses0, use, dropped0);
      var splitLimit := SplitLimit(limit);
      LimitSame(limit, size0, size, free, pages, splitLimit);
      LimitMeans(limit, size, free, pages, splitLimit);
      var start := start0;
      if start < UNIQUE_THRESHOLD {
        NoneOfSize(use);
        start := start + 1;
      }
      n := splitLimit;
      r, home, dropped := SearchLists(size0, free0, uses0, start, splitLimit, use, dropped0);
    }

    // Lists from start up to the limit, with splitting.
    method SearchLists(ghost size0: map<Addr, nat>, ghost free0: set<Addr>, ghost uses0: map<Addr, Use>,
                       start: nat, splitLimit: nat, use: Use, ghost dropped0: set<nat>)
      returns (r: Addr, ghost home: Addr, ghost dropped: set<nat>)
      requires bl.Valid() && use.sz > 0 && start <= N_HBLK_FLS + 1 && splitLimit <= N_HBLK_FLS
      requires SoFar(size0, free0, uses0, use, dropped0) && NoneBefore(size, free, start, use)
      requires NoExact(size, free, use)
      requires Mapped()
      modifies fl, mem, `freeBytes, `on, `free, `size, `odd, `uses, `largeFree, `drops, `away, `last
      ensures Mapped()
      ensures r != 0 ==> Granted(size0, free0, uses0, r, home, use, dropped)
      ensures r != 0 ==> WellPlaced(home, Sz(size0, home), r, use) && Nearest(size0, free0, home, use)
      ensures r == 0 ==> SoFar(size0, free0, uses0, use, dropped)
      ensures r == 0 ==> NoneBefore(size, free, splitLimit + 1, use) && NoExact(size, free, use)
      ensures r != 0 ==> home in size0 && Within(size0[home], splitLimit, use)
      ensures dropped0 <= dropped
    {
      hide *;
      r, home, dropped := 0, 0, dropped0;
      var i := start;
      while i <= splitLimit && r == 0
        invariant i <= N_HBLK_FLS + 1 && Mapped() && dropped0 <= dropped
        invariant r != 0 ==> Granted(size0, free0, uses0, r, home, use, dropped)
        invariant r != 0 ==> WellPlaced(home, Sz(size0, home), r, use) && Nearest(size0, free0, home, use)
        invariant r == 0 ==> SoFar(size0, free0, uses0, use, dropped)
        invariant r == 0 ==> NoneBefore(size, free, i, use) && NoExact(size, free, use)
        invariant r != 0 ==> home in size0 && Within(size0[home], splitLimit, use)
        decreases N_HBLK_FLS + 1 - i
      {
        r, home, dropped := SearchList(size0, free0, uses0, i, use, dropped);
        if r != 0 { ReachedWithin(size0, home, i, splitLimit, use, true); }
        i := i + 1;
      }
      if r == 0 { NoneLater(i, splitLimit + 1, use); }
    }

    method SearchList(ghost size0: map<Addr, nat>, ghost free0: set<Addr>, ghost uses0: map<Addr, Use>,
                      i: nat, use: Use, ghost dropped0: set<nat>)
      returns (r: Addr, ghost home: Addr, ghost dropped: set<nat>)
      requires bl.Valid() && use.sz > 0 && i <= N_HBLK_FLS
      requires SoFar(size0, free0, uses0, use, dropped0) && NoneBefore(size, free, i, use) && NoExact(size, free, use)
      requires Mapped()
      modifies fl, mem, `freeBytes, `on, `free, `size, `odd, `uses, `largeFree, `drops, `away, `last
      ensures Mapped()
      ensures r != 0 ==> Granted(size0, free0, uses0, r, home, use, dropped) && Reached(size0, home, i, use, true)
      ensures r != 0 ==> WellPlaced(home, Sz(size0, home), r, use) && Nearest(size0, free0, home, use)
      ensures r == 0 ==> SoFar(size0, free0, uses0, use, dropped)
      ensures r == 0 ==> NoneBefore(size, free, i + 1, use) && NoExact(size, free, use)
      ensures dropped0 <= dropped
    {
      hide *;
      ghost var size1, free1 := size, free;
      NearestSoFar(size0, free0, uses0, i, use, dropped0);
      r, home, dropped := AllocOn(size0, free0, uses0, i, use, true, dropped0);
      IsNearest(size0, free0, home, i, use);
      if r == 0 {
        NoneKept(size1, free1, i, use);
        NoExactKept(size1, free1, use);
        NoneNext(i, use);
      }
    }

    lemma SoFarSound(size0: map<Addr, nat>, free0: set<Addr>, uses0: map<Addr, Use>, use: Use, dropped: set<nat>)
      requires bl.Valid() && SoFar(size0, free0, uses0, use, dropped)
      ensures Sound() && Progress(size0, free0, uses0, size, free, uses, pages, dropped)
      ensures RightlyGone(size0, free0, free, use)
      ensures Clean() ==> dropped == {} && size == size0 && free == free0 && uses == uses0
    {
      hide Sound, Progress, RightlyGone, Clean;
    }

    lemma NoneLater(i: nat, k: nat, use: Use)
      requires bl.Valid() && NoneBefore(size, free, i, use) && k <= i
      ensures NoneBefore(size, free, k, use)
    {
      hide Bin, Serves;
    }

    method SplitLimit(limit: Limit) returns (n: nat)
      requires Sound()
      ensures n <= N_HBLK_FLS && IsLimit(limit, size, free, pages, n)
    {
      hide Sound, Tail, IsLimit;
      SoundLists();
      match limit {
        case AllLists => n := N_HBLK_FLS;
        case NoList => n := 0;
        case EnoughLeft(allocd, max) => n := EnoughLargeBytesLeft(allocd, max);
      }
      IsSplitLimit(limit, n);
    }

    // GC_free_bytes tells of the free blocks of each size.
    lemma SoundLists()
      requires Sound()
      ensures |freeBytes| == N_HBLK_FLS + 1
    {
      hide Divided, Coalesced, Binned, FreeLists.Valid;
      SoundParts();
    }

    // What GC_free_bytes says of the limit.
    ghost predicate CountsSay(limit: Limit, n: nat)
      reads `freeBytes
    {
      match limit
      case AllLists => n == N_HBLK_FLS
      case NoList => n == 0
      case EnoughLeft(allocd, max) =>
        && (n > 0 ==> allocd + Tail(freeBytes, n) >= max)
        && forall k :: n < k <= N_HBLK_FLS ==> allocd + Tail(freeBytes, k) < max
    }

    lemma IsSplitLimit(limit: Limit, n: nat)
      requires Sound() && n <= N_HBLK_FLS && CountsSay(limit, n)
      ensures IsLimit(limit, size, free, pages, n)
    {
      hide Tail, FreeFrom, Tiled, Binned, Counted, FreePages, Fits, NoAdjacent, FreeLists.Valid;
      SoundParts();
      forall k: nat | k <= N_HBLK_FLS ensures Tail(freeBytes, k) == FreeFrom(size, free, pages, k) {
        TailIs(size, free, pages, fl.lists, freeBytes, k);
      }
    }

    lemma SoundDivided()
      requires Sound()
      ensures Tiled(size, pages) && free <= size.Keys
    {
      hide Listed, Coalesced;
    }

    lemma NoneGone(use: Use)
      requires bl.Valid()
      ensures RightlyGone(size, free, free, use)
    {
    }

    lemma SoFarLeft(size0: map<Addr, nat>, free0: set<Addr>, uses0: map<Addr, Use>, use: Use, dropped: set<nat>)
      requires bl.Valid() && SoFar(size0, free0, uses0, use, dropped)
      ensures free <= free0 && RightlyGone(size0, free0, free, use) && SameFree(size0, size, free)
      ensures dropped == {} ==> FreePages(size, free, pages) == FreePages(size0, free0, pages)
    {
      hide Sound, RightlyGone, SameFree, FreePages, Clean;
    }

    lemma StartAlloc(use: Use)
      requires Valid() && bl.Valid()
      ensures Mapped()
      ensures SoFar(size, free, uses, use, {})
    {
      hide Binned, Counted, Threaded, Tiled, FreePages, Fits, NoAdjacent, Bin, SameFree, Kept;
      FreeSized();
      KeptSelf(uses);
    }

    lemma FreeInSize()
      requires Valid()
      ensures free <= size.Keys
    {
    }

    lemma NotGranted(size0: map<Addr, nat>, free0: set<Addr>, uses0: map<Addr, Use>, home: Addr, n: nat, use: Use,
                     dropped: set<nat>)
      requires bl.Valid() && SoFar(size0, free0, uses0, use, dropped)
      ensures Sound() && Allocated(size0, free0, uses0, 0, home, use, dropped)
      ensures Clean() ==> dropped == {} && size == size0 && free == free0
      ensures NoneBefore(size, free, n + 1, use) && NoExact(size, free, use) ==> !Servable(size0, free0, n, use)
    {
      hide FreePages, SameFree, Kept, Clean, Blocks, Run, Bin, NoneBefore, NoExact, Servable, RightlyGone;
      if NoneBefore(size, free, n + 1, use) && NoExact(size, free, use) { NoneAtAll(size0, free0, n, use); }
    }

    lemma IsGranted(size0: map<Addr, nat>, free0: set<Addr>, uses0: map<Addr, Use>, r: Addr, home: Addr, n: nat,
                    use: Use,
                    dropped: set<nat>)
      requires bl.Valid() && Granted(size0, free0, uses0, r, home, use, dropped)
      requires home in size0 && Within(size0[home], n, use)
      ensures home in free0 && home in size0 && Serves(home, size0[home], use) && Servable(size0, free0, n, use)
      ensures Sound() && Allocated(size0, free0, uses0, r, home, use, dropped)
      ensures Clean() ==> dropped == {} && r == home
    {
      hide Serves, Sound, Clean, Within;
      IsServable(size0, free0, home, n, use);
    }

    twostate lemma StillValid()
      requires old(Valid()) && Sound() && Mapped() && pages == old(pages) && heapSize == old(heapSize)
      ensures Valid()
    {
    }

    // Blocks that fit are on the list for the size or on later ones.
    lemma NoneBeforeStart(use: Use)
      requires bl.Valid()
      ensures NoneBefore(size, free, Bin(Blocks(use.sz)), use)
    {
      forall h | h in free && h in size && Serves(h, size[h], use) ensures Bin(size[h]) >= Bin(Blocks(use.sz)) {
        BinMonotone(Blocks(use.sz), size[h]);
      }
    }

    // Lists below the threshold hold exact fits only.
    lemma NoneOfSize(use: Use)
      requires bl.Valid() && NoneBefore(size, free, Bin(Blocks(use.sz)), use)
      requires Bin(Blocks(use.sz)) < UNIQUE_THRESHOLD && NoneOnList(Bin(Blocks(use.sz)), use, false)
      ensures NoneBefore(size, free, Bin(Blocks(use.sz)) + 1, use)
    {
      hide Blocks, Serves;
    }

    lemma NoneNext(i: nat, use: Use)
      requires bl.Valid() && NoneBefore(size, free, i, use) && NoneOnList(i, use, true)
      ensures NoneBefore(size, free, i + 1, use)
    {
      hide Bin, Blocks;
    }

    // After all lists nothing has been left out.
    lemma NoneAtAll(size0: map<Addr, nat>, free0: set<Addr>, n: nat, use: Use)
      requires bl.Valid() && NoneBefore(size, free, n + 1, use) && NoExact(size, free, use)
      requires SameFree(size0, size, free) && RightlyGone(size0, free0, free, use)
      ensures !Servable(size0, free0, n, use)
    {
      hide Serves, Bin, Blocks;
    }

    lemma IsServable(sizes: map<Addr, nat>, blocks: set<Addr>, h: Addr, n: nat, use: Use)
      requires bl.Valid() && h in blocks && h in sizes && Serves(h, sizes[h], use) && Within(sizes[h], n, use)
      ensures Servable(sizes, blocks, n, use)
    {
    }

    // Where nothing is black listed, only size matters.
    lemma CleanServable(sizes: map<Addr, nat>, blocks: set<Addr>, use: Use)
      requires bl.Valid() && Clean() && blocks <= sizes.Keys
      ensures Servable(sizes, blocks, N_HBLK_FLS, use) <==> !NoFit(sizes, blocks, Blocks(use.sz))
    {
      hide Serves, Blocks, Clean, Bin;
      forall h | h in blocks
        ensures Within(sizes[h], N_HBLK_FLS, use) && (Serves(h, sizes[h], use) <==> sizes[h] >= Blocks(use.sz))
      {
        CleanServes(h, sizes[h], use);
        BinMonotone(sizes[h], sizes[h]);
      }
    }

    // A list searched in vain has no fitting block, and every block is on its list.
    lemma NoneOn(i: nat, use: Use, maySplit: bool)
      requires bl.Valid() && Sound() && i < |fl.lists| && Seen(size, fl.lists[i], |fl.lists[i]|, use, maySplit)
      ensures NoneOnList(i, use, maySplit)
    {
      hide Counted, Threaded, Tiled, FreePages, Fits, NoAdjacent, OnList, Bin, Serves;
      forall h | h in free && h in size && Bin(size[h]) == i ensures Useless(h, size[h], use, maySplit) {
        var j := ListIndex(size, on, odd, fl.lists, h);
      }
    }
  }

  // How many lists may be split (GC_allochblk's split_limit).
  datatype Limit = AllLists | NoList | EnoughLeft(allocd: nat, max: nat)

  // How far lists are searched with splitting: up to the last one from which on the free blocks, with what is
  // allocated, make up what was allocated at most so far, if not all of them or none.
  ghost predicate IsLimit(limit: Limit, size: map<Addr, nat>, free: set<Addr>, pages: set<nat>, n: nat) {
    match limit
    case AllLists => n == N_HBLK_FLS
    case NoList => n == 0
    case EnoughLeft(allocd, max) =>
      && n <= N_HBLK_FLS && (n > 0 ==> allocd + FreeFrom(size, free, pages, n) >= max)
      && forall k: nat :: n < k <= N_HBLK_FLS ==> allocd + FreeFrom(size, free, pages, k) < max
  }

  // The pages in free blocks whose sizes belong on list k or later ones.
  ghost function FreeFrom(size: map<Addr, nat>, free: set<Addr>, pages: set<nat>, k: nat): nat {
    |FreePages(size, LargeFrom(size, free, k), pages)|
  }

  ghost function LargeFrom(size: map<Addr, nat>, free: set<Addr>, k: nat): set<Addr> {
    set h | h in free && h in size && Bin(size[h]) >= k
  }

  lemma {:induction false} TailIs(size: map<Addr, nat>, free: set<Addr>, pages: set<nat>, lists: seq<seq<Addr>>,
                                  freeBytes: seq<nat>, k: nat)
    requires Tiled(size, pages) && Binned(size, map[], free, lists) && Counted(size, lists, freeBytes)
    requires k <= N_HBLK_FLS + 1 && forall i :: 0 <= i < |lists| ==> Distinct(lists[i])
    ensures Tail(freeBytes, k) == FreeFrom(size, free, pages, k)
    decreases N_HBLK_FLS + 1 - k
  {
    hide Tiled, FreePages, Bin, SumSz, Distinct;
    ListsHold(size, free, lists, k);
    if k == N_HBLK_FLS + 1 {
      NoFreePages(size, pages);
    } else {
      TailIs(size, free, pages, lists, freeBytes, k + 1);
      AddAll(size, pages, LargeFrom(size, free, k + 1), lists[k]);
      assert LargeFrom(size, free, k) == LargeFrom(size, free, k + 1) + Elements(lists[k]);
    }
  }

  function Elements(s: seq<Addr>): set<Addr> { set a | a in s }

  // Each list holds the free blocks of its sizes.
  lemma ListsHold(size: map<Addr, nat>, free: set<Addr>, lists: seq<seq<Addr>>, k: nat)
    requires Binned(size, map[], free, lists) && k <= N_HBLK_FLS + 1
    ensures |lists| == N_HBLK_FLS + 1 && (k == N_HBLK_FLS + 1 ==> LargeFrom(size, free, k) == {})
    ensures k <= N_HBLK_FLS ==> forall h :: h in lists[k] <==> h in free && h in size && Bin(size[h]) == k
  {
    hide Bin;
    if k <= N_HBLK_FLS { assert OnList(size, map[], free, lists[k], k); }
    forall h | h in free ensures h in size && Bin(size[h]) < |lists| && h in lists[Bin(size[h])] {}
  }

  lemma NoFreePages(size: map<Addr, nat>, pages: set<nat>)
    ensures FreePages(size, {}, pages) == {}
  {
  }

  // The pages of the blocks of a list come to those of other free blocks.
  lemma {:induction false} AddAll(size: map<Addr, nat>, pages: set<nat>, base: set<Addr>, s: seq<Addr>)
    requires Tiled(size, pages) && Distinct(s) && forall a <- s :: a in size && a !in base
    ensures |FreePages(size, base + Elements(s), pages)| == |FreePages(size, base, pages)| + SumSz(size, s)
  {
    hide Tiled, FreePages;
    if s == [] {
      assert base + Elements(s) == base;
    } else {
      var rest := s[1..];
      assert Distinct(rest) && s[0] !in rest;
      AddAll(size, pages, base, rest);
      assert s[0] in s && forall a <- rest :: a in s;
      FreeChange(size, base + Elements(rest), pages, s[0]);
      assert base + Elements(s) == base + Elements(rest) + {s[0]};
    }
  }

  lemma LimitMeans(limit: Limit, size: map<Addr, nat>, free: set<Addr>, pages: set<nat>, n: nat)
    requires IsLimit(limit, size, free, pages, n)
    ensures (limit == AllLists ==> n == N_HBLK_FLS) && (limit == NoList ==> n == 0)
  {
    hide FreeFrom;
  }

  // The sizes of other blocks do not matter.
  lemma LimitSame(limit: Limit, size0: map<Addr, nat>, size: map<Addr, nat>, free: set<Addr>, pages: set<nat>, n: nat)
    requires SameFree(size0, size, free)
    ensures IsLimit(limit, size, free, pages, n) <==> IsLimit(limit, size0, free, pages, n)
  {
    forall k: nat ensures FreeFrom(size, free, pages, k) == FreeFrom(size0, free, pages, k) {
      assert LargeFrom(size, free, k) == LargeFrom(size0, free, k);
      FreeSame(size0, size, LargeFrom(size, free, k), pages);
    }
    hide FreeFrom;
  }

  lemma FreeSame(size0: map<Addr, nat>, size: map<Addr, nat>, free: set<Addr>, pages: set<nat>)
    requires SameFree(size0, size, free)
    ensures FreePages(size, free, pages) == FreePages(size0, free, pages)
  {
    forall p ensures InFree(size, free, p) <==> InFree(size0, free, p) {
      if a :| a in free && Covers(size, a, p) { assert Covers(size0, a, p); }
      if a :| a in free && Covers(size0, a, p) { assert Covers(size, a, p); }
    }
    hide InFree;
  }

  // If no page has gone, no block has.
  lemma NoneLeft(size0: map<Addr, nat>, free0: set<Addr>, size: map<Addr, nat>, free: set<Addr>, pages: set<nat>)
    requires Tiled(size0, pages) && free <= free0 <= size0.Keys && SameFree(size0, size, free)
    requires FreePages(size, free, pages) == FreePages(size0, free0, pages)
    ensures free == free0
  {
    FreeSame(size0, size, free, pages);
    if h :| h in free0 && h !in free {
      FreeChange(size0, free, pages, h);
      hide FreePages, Tiled;
      FreeMore(size0, free + {h}, free0, pages);
      BlockPositive(size0, pages, h);
      FreeSubset(FreePages(size0, free + {h}, pages), FreePages(size0, free0, pages));
    }
  }

  lemma BlockPositive(size: map<Addr, nat>, pages: set<nat>, h: Addr)
    requires Tiled(size, pages) && h in size
    ensures size[h] > 0
  {
  }

  lemma FreeMore(size: map<Addr, nat>, free1: set<Addr>, free2: set<Addr>, pages: set<nat>)
    requires free1 <= free2
    ensures FreePages(size, free1, pages) <= FreePages(size, free2, pages)
  {
  }

  lemma FreeSubset(a: set<nat>, b: set<nat>)
    requires a <= b
    ensures |a| <= |b|
  {
    assert b == a + (b - a);
  }

  // The free bytes on list n and all later ones.
  ghost function Tail(freeBytes: seq<nat>, n: nat): nat
    decreases |freeBytes| - n
  {
    if n >= |freeBytes| then 0 else freeBytes[n] + Tail(freeBytes, n + 1)
  }

  lemma HomeSame(size0: map<Addr, nat>, size1: map<Addr, nat>, free1: set<Addr>, home: Addr)
    requires SameFree(size0, size1, free1) && home in free1
    ensures home in size0 && home in size1 && size1[home] == size0[home]
  {
  }

  // Dropping one more block.
  lemma ProgressDrop(size0: map<Addr, nat>, free0: set<Addr>, uses0: map<Addr, Use>,
                     size1: map<Addr, nat>, free1: set<Addr>, uses1: map<Addr, Use>,
                     size: map<Addr, nat>, free: set<Addr>, uses: map<Addr, Use>, pages: set<nat>, dropped: set<nat>,
                     h: Addr)
    requires Progress(size0, free0, uses0, size1, free1, uses1, pages, dropped) && h in size1
    requires free == free1 - {h} && SameFree(size1, size, free) && Kept(uses1, uses)
    requires FreePages(size, free, pages) == FreePages(size1, free1, pages) - Run(h, size1[h])
    requires Run(h, size1[h]) <= FreePages(size1, free1, pages)
    ensures Progress(size0, free0, uses0, size, free, uses, pages, dropped + Run(h, size1[h]))
  {
    hide Run, FreePages, SameFree, Kept;
    SameFreeTrans(size0, size1, size, free1, free);
    KeptTrans(uses0, uses1, uses);
  }

  lemma ProgressSame(size0: map<Addr, nat>, free0: set<Addr>, uses0: map<Addr, Use>,
                     size: map<Addr, nat>, free: set<Addr>, uses: map<Addr, Use>, pages: set<nat>, dropped: set<nat>)
    requires Progress(size0, free0, uses0, size, free, uses, pages, dropped)
    ensures SameFree(size0, size, free) && free <= free0
  {
  }

  lemma SizeAt(size: map<Addr, nat>, h: Addr)
    requires h in size
    ensures Sz(size, h) == size[h]
  {
  }

  lemma IsSmaller(free1: set<Addr>, lists1: seq<seq<Addr>>, j1: nat, free: set<Addr>, lists: seq<seq<Addr>>, j: nat,
                  n: nat)
    requires |free| < |free1|
    ensures Smaller(free1, lists1, j1, free, lists, j, n)
  {
  }

  lemma FewerFree(s: set<Addr>, h: Addr)
    requires h in s
    ensures |s - {h}| < |s|
  {
  }

  lemma Shrinks(free1: set<Addr>, lists1: seq<seq<Addr>>, j1: nat, free: set<Addr>, lists: seq<seq<Addr>>, j: nat,
                n: nat)
    requires Smaller(free1, lists1, j1, free, lists, j, n)
    ensures |free| < |free1| || (free == free1 && lists == lists1 && n < |lists| && j1 < j <= |lists[n]|)
  {
  }

  lemma NeedPositive(use: Use)
    requires use.sz > 0
    ensures Blocks(use.sz) > 0
  {
  }

  lemma DropStart(size: map<Addr, nat>, free: set<Addr>, uses: map<Addr, Use>, h: Addr, use: Use)
    requires (forall a <- free :: a in size) && h !in uses
    ensures SameFree(size, size, free - {h}) && Kept(uses, uses[h := use])
  {
  }

  // One page is cut off a block in use.
  lemma CutTiled(size: map<Addr, nat>, free: set<Addr>, uses: map<Addr, Use>, pages: set<nat>, x: Addr)
    requires Tiled(size, pages) && free <= size.Keys && Fits(size, free, uses) && x in size && x !in free && size[x] > 1
    ensures x + 1 !in size
    ensures var s2 := Divide(size, x, 1);
            && Tiled(s2, pages) && free <= s2.Keys
            && Fits(s2, free, uses[x := Use(HBLKSIZE, PtrFree, false)]
                                  [x + 1 := Use((size[x] - 1) * HBLKSIZE, PtrFree, false)])
            && FreePages(s2, free, pages) == FreePages(size, free, pages)
            && (NoAdjacent(size, free) ==> NoAdjacent(s2, free))
  {
    hide *;
    var s2 := Divide(size, x, 1);
    TiledDivide(size, pages, x, 1);
    DivideOthers(size, x, 1);
    DivideIs(size, x, 1);
    CutFits(size, free, uses, x, s2);
    CutFree(size, s2, free, pages, x);
  }

  lemma CutFits(size: map<Addr, nat>, free: set<Addr>, uses: map<Addr, Use>, x: Addr, s2: map<Addr, nat>)
    requires Fits(size, free, uses) && free <= size.Keys && x in size && x !in free && x + 1 !in size && size[x] > 1
    requires s2 == size[x := 1][x + 1 := size[x] - 1]
    ensures Fits(s2, free,
              uses[x := Use(HBLKSIZE, PtrFree, false)][x + 1 := Use((size[x] - 1) * HBLKSIZE, PtrFree, false)])
    ensures NoAdjacent(size, free) ==> NoAdjacent(s2, free)
  {
    WholeBlocks(1);
    WholeBlocks(size[x] - 1);
    hide Blocks;
    assert s2.Keys == size.Keys + {x + 1};
  }

  lemma WholeBlocks(n: nat)
    ensures Blocks(n * HBLKSIZE) == n
  {
  }

  // Blocks in use do not matter to the free pages.
  lemma CutFree(size: map<Addr, nat>, s2: map<Addr, nat>, free: set<Addr>, pages: set<nat>, x: Addr)
    requires free <= size.Keys && x !in free
    requires forall a <- free :: a in s2 && s2[a] == size[a]
    ensures FreePages(s2, free, pages) == FreePages(size, free, pages)
  {
    forall p ensures InFree(s2, free, p) <==> InFree(size, free, p) {
      if InFree(size, free, p) {
        var a :| a in free && Covers(size, a, p);
        assert Covers(s2, a, p);
      }
      if InFree(s2, free, p) {
        var a :| a in free && Covers(s2, a, p);
        assert Covers(size, a, p);
      }
    }
  }

  lemma SplitTiled(size: map<Addr, nat>, free: set<Addr>, uses: map<Addr, Use>, pages: set<nat>, h: Addr, k: nat)
    requires Tiled(size, pages) && free <= size.Keys && Fits(size, free, uses) && h in free && 0 < k < size[h]
    ensures h > 0 && h + k !in size && h + k !in free
    ensures var s2 := Divide(size, h, k);
            Tiled(s2, pages) && Fits(s2, free + {h + k}, uses) && free + {h + k} <= s2.Keys
  {
    TilePositive(size, pages, h);
    DivideOthers(size, h, k);
    hide Tiled, Fits, Divide;
    TiledDivide(size, pages, h, k);
    FitsDivide(size, free, uses, h, k);
  }

  // The heap after the first part of free block x is taken.
  lemma PartTiled(size: map<Addr, nat>, free: set<Addr>, uses: map<Addr, Use>, pages: set<nat>, x: Addr, need: nat,
                  use: Use)
    requires Tiled(size, pages) && free <= size.Keys && Fits(size, free, uses)
    requires x in free && 0 < need < size[x] && need == Blocks(use.sz)
    ensures var s2, f2 := Divide(size, x, need), free - {x} + {x + need};
            Tiled(s2, pages) && f2 <= s2.Keys && Fits(s2, f2, uses[x := use])
    ensures x > 0 && x + need !in size && x + need !in free
  {
    TilePositive(size, pages, x);
    TiledDivide(size, pages, x, need);
    DivideOthers(size, x, need);
    hide Tiled, Fits, Divide, Blocks;
    FitsDivide(size, free, uses, x, need);
    FitsUse(Divide(size, x, need), free + {x + need}, uses, x, use);
    PartSets(free, x, x + need);
  }

  lemma PartFree(size: map<Addr, nat>, free: set<Addr>, pages: set<nat>, x: Addr, need: nat)
    requires Tiled(size, pages) && free <= size.Keys && x in free && 0 < need < size[x]
    ensures var f, f2 := FreePages(size, free, pages), FreePages(Divide(size, x, need), free - {x} + {x + need}, pages);
            f2 == f - Run(x, need) && Run(x, need) <= f && |f2| + need == |f|
  {
    hide *;
    var s2, f1 := Divide(size, x, need), free - {x} + {x + need};
    TiledDivide(size, pages, x, need);
    FreeDivide(size, free, pages, x, need);
    DivideOthers(size, x, need);
    PartSets(free, x, x + need);
    FreeChange(s2, f1, pages, x);
    PutBack(free + {x + need}, x);
    SetMinus(FreePages(size, free, pages), FreePages(s2, f1, pages), Run(x, need));
  }

  lemma WholeFree(size: map<Addr, nat>, free: set<Addr>, pages: set<nat>, x: Addr)
    requires Tiled(size, pages) && x in free && x in size
    ensures var f, f2 := FreePages(size, free, pages), FreePages(size, free - {x}, pages);
            f2 == f - Run(x, size[x]) && Run(x, size[x]) <= f && |f2| + size[x] == |f|
  {
    hide *;
    PutBack(free, x);
    FreeChange(size, free - {x}, pages, x);
    SetMinus(FreePages(size, free, pages), FreePages(size, free - {x}, pages), Run(x, size[x]));
  }

  lemma SetMinus(all: set<nat>, rest: set<nat>, r: set<nat>)
    requires all == rest + r && rest !! r
    ensures rest == all - r && r <= all
  {
  }

  lemma TilePositive(size: map<Addr, nat>, pages: set<nat>, h: Addr)
    requires Tiled(size, pages) && h in size
    ensures h > 0 && size[h] > 0
  {
  }

  lemma DivideIs(size: map<Addr, nat>, h: Addr, k: nat)
    requires h in size && k < size[h]
    ensures Divide(size, h, k) == size[h := k][h + k := size[h] - k]
  {
  }

  lemma DivideOthers(size: map<Addr, nat>, h: Addr, k: nat)
    requires h in size && 0 < k < size[h]
    ensures var s2 := Divide(size, h, k);
            && s2.Keys == size.Keys + {h + k} && s2[h] == k && s2[h + k] == size[h] - k
            && forall a <- size :: a != h && a != h + k ==> s2[a] == size[a]
  {
  }

  lemma NoAdjacentExtend(size: map<Addr, nat>, free: set<Addr>, p: Addr, n: nat)
    requires NoAdjacent(size, free) && free <= size.Keys && p !in size
    ensures NoAdjacent(size[p := n], free)
  {
  }

  // A free block is divided.
  lemma FitsDivide(size: map<Addr, nat>, free: set<Addr>, uses: map<Addr, Use>, h: Addr, k: nat)
    requires Fits(size, free, uses) && h in free && h in size && 0 < k < size[h] && h + k !in size
    ensures Fits(Divide(size, h, k), free + {h + k}, uses)
  {
    hide Blocks;
    assert Divide(size, h, k).Keys == size.Keys + {h + k};
  }

  // The heap before it has pages.
  lemma NoBlocks(page: nat)
    requires page > 0
    ensures var lists := seq(N_HBLK_FLS + 1, i => []);
            Binned(map[], map[], {}, lists) && Counted(map[], lists, seq(N_HBLK_FLS + 1, i => 0))
    ensures Tiled(map[], {}) && Fits(map[], {}, map[]) && NoAdjacent(map[], {}) && FreePages(map[], {}, {}) == {}
    ensures Marked(map[], {}, {}, page, {})
  {
  }

  lemma TwoBlocks(size: map<Addr, nat>, pages: set<nat>, h: Addr)
    requires Tiled(size, pages) && h in size && h + size[h] in size
    ensures size[h] > 0 && size[h + size[h]] > 0
    ensures (size - {h + size[h]})[h := size[h] + size[h + size[h]]] == Join(size, h)
  {
  }

  lemma DivideSizes(size: map<Addr, nat>, h: Addr, k: nat)
    requires h in size && 0 < k < size[h]
    ensures h in Divide(size, h, k) && h + k in Divide(size, h, k) && Divide(size, h, k)[h + k] == size[h] - k
  {
  }

  lemma SplitSets(free: set<Addr>, on: set<Addr>, h: Addr, x: Addr)
    requires h in free && on == free && x !in free
    ensures on - {h} + {x} + {h} == free + {h} + {x}
    ensures free + {h} + {x} == free + {x} && free + {h} + {x} - {x} == free
  {
  }

  lemma FitsUse(size: map<Addr, nat>, free: set<Addr>, uses: map<Addr, Use>, x: Addr, use: Use)
    requires Fits(size, free, uses) && x in free && x in size && size[x] == Blocks(use.sz)
    ensures Fits(size, free - {x}, uses[x := use])
  {
    hide Blocks;
    assert uses[x := use].Keys == uses.Keys + {x};
  }

  lemma PartSets(free: set<Addr>, x: Addr, rest: Addr)
    requires x in free && rest != x && rest !in free
    ensures free + {rest} - {x} == free - {x} + {rest}
  {
  }

  lemma FitsExtend(size: map<Addr, nat>, free: set<Addr>, uses: map<Addr, Use>, p: Addr, n: nat)
    requires Fits(size, free, uses) && p !in size && p !in free
    ensures Fits(size[p := n], free, uses[p := Use(n * HBLKSIZE, PtrFree, false)])
    ensures p !in uses && uses[p := Use(n * HBLKSIZE, PtrFree, false)] - {p} == uses
  {
    assert Blocks(n * HBLKSIZE) == n;
  }

  // What of new memory can be used: nothing near address zero, nor the last block of the address space.
  function Addressable(s: set<nat>): set<nat> {
    set x | x in s && 2 <= x < MEMORY_END - 1
  }

  lemma Trimmed(p0: Addr, n0: nat, p: Addr, n: nat)
    requires p0 <= p && p + n <= p0 + n0 <= MEMORY_END
    requires p0 >= 2 ==> p == p0
    requires p0 < 2 ==> p <= 2 && (n > 0 ==> p == 2)
    requires n == 0 ==> p0 + n0 <= 2 || (p0 + n0 == MEMORY_END && p >= 2 && p + 1 == MEMORY_END)
    requires n > 0 ==> p + n == if p0 + n0 == MEMORY_END then MEMORY_END - 1 else p0 + n0
    ensures Addressable(Run(p0, n0)) == Run(p, n)
    ensures n > 0 ==> p > 0
  {
    forall x ensures x in Addressable(Run(p0, n0)) <==> x in Run(p, n) {
      RunIn(p0, n0, x);
      RunIn(p, n, x);
    }
  }

  lemma RunPart(p0: Addr, n0: nat, p: Addr, n: nat)
    requires p0 <= p && p + n <= p0 + n0
    ensures Run(p, n) <= Run(p0, n0)
  {
    forall x | x in Run(p, n) ensures x in Run(p0, n0) {
      RunIn(p0, n0, x);
      RunIn(p, n, x);
    }
  }

  lemma NoRun(p: Addr, n: nat)
    ensures Run(p, n) == {} <==> n == 0
  {
    if n > 0 { RunIn(p, n, p); }
  }
}
