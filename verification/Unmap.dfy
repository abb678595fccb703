/** Blocks that have not been used for a while give their memory back to the system, and neighbouring free blocks are
 *  merged, with memory or without (USE_MUNMAP in allchblk.c).
 */
module Unmap {
  import opened Common
  import opened Arithmetic
  import opened HashChains
  import opened FreeLists
  import opened HeapBlocks
  import opened BlackList
  import opened Mapping
  import opened Allocator

  // The free block h cannot be merged with its successor.
  ghost predicate Unmergeable(size: map<Addr, nat>, free: set<Addr>, h: Addr) {
    h in size ==>
      (var n := h + size[h];
       n in size && n in free ==> size[h] + size[n] >= MAX_BLOCKS)
  }

  // What the headers of free blocks say, besides what GC_merge_unmapped leaves alone.
  datatype Headers = Headers(size: map<Addr, nat>, free: set<Addr>, away: set<Addr>, last: map<Addr, nat>)

  function Age(last: map<Addr, nat>, h: Addr): nat {
    if h in last then last[h] else 0
  }

  // Two neighbours h and next as one block are without memory: both were, or one was and it is larger, or as large and
  // the second.
  predicate StaysAway(d: Headers, h: Addr, next: Addr) {
    if h in d.away <==> next in d.away then h in d.away
    else if next in d.away then Sz(d.size, h) <= Sz(d.size, next)
    else Sz(d.size, h) > Sz(d.size, next)
  }

  // It counts as touched when the first was, or when the second was if that one had the memory.
  function MergedAge(d: Headers, h: Addr, next: Addr): map<Addr, nat> {
    if h in d.away && next !in d.away && !StaysAway(d, h, next) then d.last[h := Age(d.last, next)] else d.last
  }

  // What the headers say when the two have the same marking.
  function Even(d: Headers, h: Addr, next: Addr): Headers {
    d.(away := d.away - {h, next} + (if StaysAway(d, h, next) then {h, next} else {}), last := MergedAge(d, h, next))
  }

  lemma EvenIs(d: Headers, h: Addr, next: Addr)
    requires h != next
    ensures (h in d.away <==> next in d.away) ==> Even(d, h, next) == d
    ensures h !in d.away && next in d.away ==>
              Even(d, h, next) ==
              d.(away := if Sz(d.size, h) > Sz(d.size, next) then d.away - {next} else d.away + {h})
    ensures h in d.away && next !in d.away ==>
              Even(d, h, next) ==
              if Sz(d.size, h) > Sz(d.size, next) then d.(away := d.away + {next})
              else d.(away := d.away - {h}, last := d.last[h := Age(d.last, next)])
  {
    assert h in d.away ==> {h} + (d.away - {h}) == d.away;
  }

  // Free block h has a free successor.
  predicate Paired(d: Headers, h: Addr) {
    h in d.free && h in d.size && h + d.size[h] in d.free && h + d.size[h] in d.size
  }

  // The two can be merged.
  predicate Mergeable(d: Headers, h: Addr) {
    Paired(d, h) && d.size[h] + d.size[h + d.size[h]] < MAX_BLOCKS
  }

  // They are made one.
  function MergeOne(d: Headers, h: Addr): Headers {
    if !Paired(d, h) then d
    else
      var next := h + d.size[h];
      var e := Even(d, h, next);
      Headers(Join(d.size, h), d.free - {next}, e.away - {next}, e.last)
  }

  // The same for several blocks, one after the other.
  function MergeThese(d: Headers, hs: seq<Addr>): Headers {
    if hs == [] then d else MergeOne(MergeThese(d, hs[..|hs| - 1]), hs[|hs| - 1])
  }

  ghost predicate AllMergeable(d: Headers, hs: seq<Addr>) {
    forall i :: 0 <= i < |hs| ==> Mergeable(MergeThese(d, hs[..i]), hs[i])
  }

  lemma MergeNone(d: Headers)
    ensures MergeThese(d, []) == d && AllMergeable(d, [])
  {
  }

  lemma MergeMore(d: Headers, hs: seq<Addr>, h: Addr)
    requires AllMergeable(d, hs) && Mergeable(MergeThese(d, hs), h)
    ensures MergeThese(d, hs + [h]) == MergeOne(MergeThese(d, hs), h) && AllMergeable(d, hs + [h])
  {
    hide Mergeable, MergeOne;
    assert (hs + [h])[..|hs|] == hs;
    forall i | 0 <= i < |hs + [h]| ensures Mergeable(MergeThese(d, (hs + [h])[..i]), (hs + [h])[i]) {
      assert i < |hs| ==> (hs + [h])[..i] == hs[..i];
    }
  }

  // Whatever is merged: a block that keeps its size keeps its marking and the time it was last touched.
  lemma {:induction false} OthersKeepMarks(d: Headers, hs: seq<Addr>, a: Addr)
    requires AllMergeable(d, hs) && a in MergeThese(d, hs).free
    requires a in d.size && a in MergeThese(d, hs).size && MergeThese(d, hs).size[a] == d.size[a]
    requires forall b <- d.size :: d.size[b] > 0
    ensures a in MergeThese(d, hs).away <==> a in d.away
    ensures Age(MergeThese(d, hs).last, a) == Age(d.last, a)
  {
    hide MergeOne, Mergeable;
    if hs != [] {
      var less, h := hs[..|hs| - 1], hs[|hs| - 1];
      var e := MergeThese(d, less);
      forall i | 0 <= i < |less| ensures Mergeable(MergeThese(d, less[..i]), less[i]) {
        assert less[..i] == hs[..i];
      }
      forall b <- e.size ensures e.size[b] > 0 { SizesGrow(d, less, b); }
      SizesGrow(d, less, a);
      OneGrows(e, h, a);
      OneKeepsMarks(e, h, a);
      OthersKeepMarks(d, less, a);
    }
  }

  lemma OneGrows(e: Headers, h: Addr, a: Addr)
    requires a in MergeOne(e, h).free && a in MergeOne(e, h).size
    ensures a in e.free && a in e.size && e.size[a] <= MergeOne(e, h).size[a]
  {
  }

  lemma OneKeepsMarks(e: Headers, h: Addr, a: Addr)
    requires a in MergeOne(e, h).free && a in MergeOne(e, h).size && a in e.size
    requires MergeOne(e, h).size[a] == e.size[a]
    requires forall b <- e.size :: e.size[b] > 0
    ensures a in MergeOne(e, h).away <==> a in e.away
    ensures Age(MergeOne(e, h).last, a) == Age(e.last, a)
  {
    hide StaysAway;
  }

  lemma {:induction false} SizesGrow(d: Headers, hs: seq<Addr>, a: Addr)
    requires forall b <- d.size :: d.size[b] > 0
    ensures a in MergeThese(d, hs).size ==> a in d.size && MergeThese(d, hs).size[a] >= d.size[a] > 0
    ensures a in MergeThese(d, hs).free ==> a in d.free
  {
    if hs != [] {
      var e, h := MergeThese(d, hs[..|hs| - 1]), hs[|hs| - 1];
      SizesGrow(d, hs[..|hs| - 1], a);
      if Paired(e, h) {
        SizesGrow(d, hs[..|hs| - 1], h);
      }
    }
  }

  // Block a is among the first j of the list.
  ghost predicate Among(s: seq<Addr>, j: nat, a: Addr) {
    exists x :: 0 <= x < j && x < |s| && s[x] == a
  }

  lemma AmongStep(s: seq<Addr>, j: nat)
    requires j < |s|
    ensures forall a :: Among(s, j + 1, a) <==> Among(s, j, a) || a == s[j]
  {
    forall a ensures Among(s, j + 1, a) <==> Among(s, j, a) || a == s[j] {
      if Among(s, j, a) {
        var x :| 0 <= x < j && x < |s| && s[x] == a;
        assert x < j + 1;
      }
    }
  }

  // The test of GC_unmap_old on the low order bits of the two collection numbers: each time these start over from 0 in
  // between, the block seems that much younger.
  lemma AgeTest(lastNo: nat, gcNo: nat, threshold: nat)
    requires lastNo <= gcNo
    ensures Short(gcNo) - Short(lastNo) > threshold <==>
            gcNo - lastNo > threshold + 0x1_0000 * (gcNo / 0x1_0000 - lastNo / 0x1_0000)
    ensures gcNo - lastNo < 0x1_0000 && threshold < 0x1_0000 ==>
              (Short(gcNo) - Short(lastNo) > threshold <==>
               gcNo - lastNo > threshold && gcNo / 0x1_0000 == lastNo / 0x1_0000)
  {
    assert gcNo == 0x1_0000 * (gcNo / 0x1_0000) + Short(gcNo);
    assert lastNo == 0x1_0000 * (lastNo / 0x1_0000) + Short(lastNo);
  }

  // What the program, the collector and the system may do to the heap.
  datatype Op = AllocOp(use: Use, limit: Limit) | FreeOp(h: Addr) | GrowOp(p: Addr, n: nat) | UnmapOp | MergeOp |
      NextGcOp

  class Pages {
    const heap: Heap
    var threshold: nat             // GC_unmap_threshold

    ghost predicate Valid()
      reads this, heap, heap.fl, heap.mem
    {
      heap.unmapping && heap.Valid()
    }

    constructor (h: Heap, limit: nat)
      requires h.unmapping && h.Valid()
      ensures Valid() && heap == h && threshold == limit
    {
      heap, threshold := h, limit;
    }

    // The test of GC_unmap_old; both numbers are unsigned short, but not their difference.
    predicate IsOld(h: Addr)
      reads heap`last, heap`gcNo, `threshold
    {
      Short(heap.gcNo) - heap.LastTouched(h) > Short(threshold)
    }

    function OldOnes(): set<Addr>
      reads heap`free, heap`last, heap`gcNo, `threshold
    {
      if threshold == 0 then {} else set h | h in heap.free && IsOld(h)
    }

    // Block a is on a list before the ith, or among the first j of the ith.
    ghost predicate Seen(a: Addr, i: nat, j: nat)
      reads heap`size, heap`free, heap.fl`lists
    {
      && a in heap.free && i <= |heap.fl.lists|
      && (Bin(Sz(heap.size, a)) < i || (i < |heap.fl.lists| && Among(heap.fl.lists[i], j, a)))
    }

    lemma Listing(i: nat)
      requires heap.Sound() && i <= N_HBLK_FLS
      ensures i < |heap.fl.lists| == N_HBLK_FLS + 1 && i < |heap.fl.heads|
      ensures heap.fl.heads[i] == At(heap.fl.lists[i], 0)
      ensures heap.fl.heads[i] == 0 <==> heap.fl.lists[i] == []
    {
      heap.fl.HeadOf(i);
    }

    lemma SeenNone(a: Addr)
      requires heap.Sound()
      ensures !Seen(a, 0, 0)
    {
    }

    // One more block of a list, or the end of the list.
    lemma SeenStep(i: nat, j: nat)
      requires heap.Sound() && i <= N_HBLK_FLS && i < |heap.fl.lists| && j < |heap.fl.lists[i]|
      ensures var h := heap.fl.lists[i][j];
              && h in heap.free && h in heap.size && Bin(heap.size[h]) == i
              && h != 0 && h in heap.fl.next && heap.fl.next[h] == At(heap.fl.lists[i], j + 1)
              && (heap.fl.next[h] == 0 <==> j + 1 == |heap.fl.lists[i]|)
              && forall a :: Seen(a, i, j + 1) <==> Seen(a, i, j) || a == h
    {
      hide Heap.Sound, FreeLists.Valid, Bin, Among;
      Linked(i, j);
      Holding(i, j);
      SeenMore(i, j);
    }

    lemma Linked(i: nat, j: nat)
      requires heap.Sound() && i < |heap.fl.lists| && j < |heap.fl.lists[i]|
      ensures var h := heap.fl.lists[i][j];
              && h != 0 && h in heap.fl.next && heap.fl.next[h] == At(heap.fl.lists[i], j + 1)
              && (heap.fl.next[h] == 0 <==> j + 1 == |heap.fl.lists[i]|)
    {
      hide FreeLists.Valid, Binned, Counted, Heap.Divided;
      heap.fl.Step(i, j);
    }

    lemma Holding(i: nat, j: nat)
      requires heap.Sound() && i < |heap.fl.lists| && j < |heap.fl.lists[i]|
      ensures var h := heap.fl.lists[i][j]; h in heap.free && h in heap.size && Bin(heap.size[h]) == i
    {
      hide Bin, Counted, FreeLists.Valid, Heap.Divided;
      assert OnList(heap.size, heap.odd, heap.on, heap.fl.lists[i], i);
      assert heap.fl.lists[i][j] in heap.fl.lists[i];
    }

    lemma SeenMore(i: nat, j: nat)
      requires i < |heap.fl.lists| && j < |heap.fl.lists[i]| && heap.fl.lists[i][j] in heap.free
      ensures forall a :: Seen(a, i, j + 1) <==> Seen(a, i, j) || a == heap.fl.lists[i][j]
    {
      hide Bin, Among;
      AmongStep(heap.fl.lists[i], j);
      forall a: Addr ensures Seen(a, i, j + 1) <==> Seen(a, i, j) || a == heap.fl.lists[i][j] {
        assert Among(heap.fl.lists[i], j + 1, a) <==> Among(heap.fl.lists[i], j, a) || a == heap.fl.lists[i][j];
      }
    }

    lemma SeenList(i: nat)
      requires heap.Sound() && i <= N_HBLK_FLS && i < |heap.fl.lists|
      ensures forall a :: Seen(a, i + 1, 0) <==> Seen(a, i, |heap.fl.lists[i]|)
    {
      var s := heap.fl.lists[i];
      assert OnList(heap.size, heap.odd, heap.on, s, i);
    }

    lemma SeenAll(a: Addr)
      requires heap.Sound() && a in heap.free
      ensures Seen(a, N_HBLK_FLS + 1, 0)
    {
      BinMonotone(Sz(heap.size, a), Sz(heap.size, a));
    }

    // GC_unmap_old: the old blocks among the free ones lose their memory.
    method UnmapOld()
      requires Valid()
      modifies heap.mem, heap`away
      ensures Valid()
      ensures heap.away == old(heap.away + OldOnes())
    {
      hide Heap.Sound, Heap.Mapped, Marked, Seen, IsOld;
      if threshold != 0 {
        ghost var away0 := heap.away;
        forall a ensures !Seen(a, 0, 0) { SeenNone(a); }
        var i := 0;
        while i <= N_HBLK_FLS
          invariant i <= N_HBLK_FLS + 1 && Valid()
          invariant forall a :: a in heap.away <==> a in away0 || (Seen(a, i, 0) && IsOld(a))
        {
          Listing(i);
          var h := heap.fl.heads[i];
          ghost var s := heap.fl.lists[i];
          ghost var j := 0;
          while h != 0
            invariant Valid() && j <= |s| && h == At(s, j) && (h == 0 <==> j == |s|)
            invariant forall a :: a in heap.away <==> a in away0 || (Seen(a, i, j) && IsOld(a))
            decreases |s| - j
          {
            SeenStep(i, j);
            if h !in heap.away && IsOld(h) { heap.UnmapBlock(h); }
            h := heap.fl.next[h];
            j := j + 1;
          }
          SeenList(i);
          i := i + 1;
        }
        forall a | a in heap.free ensures Seen(a, i, 0) { SeenAll(a); }
        SeenFree(i);
      }
    }

    lemma SeenFree(i: nat)
      ensures forall a :: Seen(a, i, 0) ==> a in heap.free
    {
    }

    // What merging makes of the headers.
    ghost predicate Made(size0: map<Addr, nat>, free0: set<Addr>, uses0: map<Addr, Use>, pages0: set<nat>, h: Addr,
                         next: Addr)
      reads heap`size, heap`free, heap`uses, heap`pages
    {
      && h in size0 && next == h + size0[h] && next in size0
      && heap.size == Join(size0, h) && heap.free == free0 - {next} && heap.uses == uses0 && heap.pages == pages0
    }

    ghost function Told(): Headers
      reads heap`size, heap`free, heap`away, heap`last
    {
      Headers(heap.size, heap.free, heap.away, heap.last)
    }

    // Two free neighbours get the same marking: both have memory or neither has.
    method MakeEven(h: Addr, next: Addr)
      requires Valid() && h in heap.free && h in heap.size && next == h + heap.size[h] && next in heap.free
      requires next in heap.size
      modifies heap.mem, heap`away, heap`last
      ensures Valid() && (h in heap.away <==> next in heap.away)
      ensures Told() == old(Even(Told(), h, next))
    {
      hide Heap.Sound, Heap.Mapped, Even;
      NotSame(h, next);
      EvenIs(Told(), h, next);
      var size, nextSize := heap.size[h], heap.size[next];
      if h !in heap.away && next in heap.away {
        if size > nextSize {
          heap.RemapBlock(next);
        } else {
          heap.UnmapBlock(h);
        }
      } else if next !in heap.away && h in heap.away {
        if size > nextSize {
          heap.UnmapBlock(next);
        } else {
          heap.RemapBlock(h);
          heap.last := heap.last[h := heap.LastTouched(next)];
        }
      }
    }

    lemma NotSame(h: Addr, next: Addr)
      requires Valid() && h in heap.free && h in heap.size && next == h + heap.size[h]
      ensures h != next
    {
    }

    // Then the pages that belong to both go too, and they are made one block, on the list for its size.
    method MergeTwo(h: Addr, next: Addr)
      requires Valid() && h in heap.free && h in heap.size && next == h + heap.size[h] && next in heap.free
      requires next in heap.size
      modifies heap.mem, heap.fl, heap`away, heap`last, heap`freeBytes, heap`on, heap`free, heap`size
      ensures Valid()
      ensures old(Paired(Told(), h)) && Told() == old(MergeOne(Told(), h))
      ensures Made(old(heap.size), old(heap.free), old(heap.uses), old(heap.pages), h, next)
    {
      hide Heap.Listed, Heap.Divided, Marked, Bin, Join, FreePages, Even, MergeOne, Paired;
      IsMerged(Told(), h, next);
      MakeEven(h, next);
      FillGap(h, next);
      ghost var free0 := heap.free;
      SoundTiled();
      Merging(heap.size, heap.pages, heap.free, h, next);
      heap.away := heap.away - {next};
      heap.RemoveFromFl(h, Bin(heap.size[h]));
      heap.Absorb(h, next);
      BlockNotZero(h);
      heap.AddToFl(h);
      assert heap.free == free0 - {next};
    }

    lemma IsMerged(d: Headers, h: Addr, next: Addr)
      requires h in d.free && h in d.size && next == h + d.size[h] && next in d.free && next in d.size
      ensures Paired(d, h)
      ensures var e := Even(d, h, next);
              MergeOne(d, h) == Headers(Join(d.size, h), d.free - {next}, e.away - {next}, e.last)
    {
    }

    lemma SoundTiled()
      requires heap.Sound()
      ensures Tiled(heap.size, heap.pages) && heap.odd == map[]
    {
      hide Heap.Listed, Heap.Coalesced;
    }

    lemma BlockNotZero(h: Addr)
      requires heap.Divided() && h in heap.size
      ensures h != 0
    {
    }

    method FillGap(h: Addr, next: Addr)
      requires Valid() && h in heap.free && h in heap.size && next == h + heap.size[h] && next in heap.free
      requires next in heap.size
      requires h in heap.away <==> next in heap.away
      modifies heap.mem
      ensures heap.Sound() && Joined(h, next)
    {
      hide Heap.Sound, Marked, Interior, Join, Whole, Backed;
      GapHere(h, next);
      ghost var gap := {};
      if h in heap.away {
        gap := heap.mem.UnmapGap(h * HBLKSIZE, heap.size[h] * HBLKSIZE, next * HBLKSIZE, heap.size[next] * HBLKSIZE);
      }
      assert heap.mem.unmapped == old(heap.mem.unmapped) + gap;
    }

    lemma GapHere(h: Addr, next: Addr)
      requires Valid() && h in heap.free && h in heap.size && next == h + heap.size[h] && next in heap.size
      requires h in heap.away <==> next in heap.away
      ensures GapFacts(heap.size, heap.free, heap.away, heap.mem.page, heap.mem.unmapped, h)
    {
      hide Marked, GapFacts, Heap.Listed;
      GapMarked(heap.size, heap.pages, heap.free, heap.away, heap.mem.page, heap.mem.unmapped, h);
    }

    // The marking is right for the two blocks as one.
    ghost predicate Joined(h: Addr, next: Addr)
      reads heap`size, heap`free, heap`away, heap.mem
    {
      && h in heap.size && next == h + heap.size[h] && next in heap.size
      && Marked(Join(heap.size, h), heap.free - {next}, heap.away - {next}, heap.mem.page, heap.mem.unmapped)
      && heap.mem.unmappedBytes == heap.mem.page * |heap.mem.unmapped|
    }

    // Free blocks that cannot be merged with their successors: all on lists before the ith, and the first j of it.
    ghost predicate DoneUpTo(i: nat, j: nat)
      reads heap`size, heap`free, heap.fl`lists
    {
      forall a :: Seen(a, i, j) ==> Unmergeable(heap.size, heap.free, a)
    }

    // The free blocks of the heap occupy the pages f.
    ghost predicate Occupies(uses0: map<Addr, Use>, pages0: set<nat>, f: set<nat>)
      reads heap`size, heap`free, heap`uses, heap`pages
    {
      heap.uses == uses0 && heap.pages == pages0 && FreePages(heap.size, heap.free, heap.pages) == f
    }

    // GC_merge_unmapped: afterwards no free block can be merged with its successor.
    method MergeUnmapped() returns (ghost merged: seq<Addr>)
      requires Valid()
      modifies heap.mem, heap.fl, heap`away, heap`last, heap`freeBytes, heap`on, heap`free, heap`size
      ensures Valid()
      ensures Occupies(old(heap.uses), old(heap.pages), old(FreePages(heap.size, heap.free, heap.pages)))
      ensures old(AllMergeable(Told(), merged)) && Told() == old(MergeThese(Told(), merged))
      ensures forall a <- heap.free :: Unmergeable(heap.size, heap.free, a)
      ensures |heap.pages| < MAX_BLOCKS ==> NoAdjacent(heap.size, heap.free)
    {
      hide Heap.Sound, Heap.Mapped, Seen, Unmergeable, FreePages, NoAdjacent, Occupies, MergeThese, AllMergeable, Told;
      ghost var f := FreePages(heap.size, heap.free, heap.pages);
      Start();
      merged := [];
      MergeNone(Told());
      var i := 0;
      while i <= N_HBLK_FLS
        invariant i <= N_HBLK_FLS + 1 && Valid() && DoneUpTo(i, 0)
        invariant Occupies(old(heap.uses), old(heap.pages), f)
        invariant AllMergeable(old(Told()), merged) && Told() == MergeThese(old(Told()), merged)
      {
        merged := MergeList(i, old(heap.uses), old(heap.pages), f, old(Told()), merged);
        i := i + 1;
      }
      AllDone();
    }

    lemma Start()
      requires heap.Sound()
      ensures DoneUpTo(0, 0) && Occupies(heap.uses, heap.pages, FreePages(heap.size, heap.free, heap.pages))
    {
      forall a ensures !Seen(a, 0, 0) { SeenNone(a); }
    }

    lemma AllDone()
      requires heap.Sound() && DoneUpTo(N_HBLK_FLS + 1, 0)
      ensures forall a <- heap.free :: Unmergeable(heap.size, heap.free, a)
      ensures |heap.pages| < MAX_BLOCKS ==> NoAdjacent(heap.size, heap.free)
    {
      hide Seen, Heap.Listed;
      forall a <- heap.free ensures Unmergeable(heap.size, heap.free, a) { SeenAll(a); }
      if |heap.pages| < MAX_BLOCKS {
        forall a, b | a in heap.free && a in heap.size && b in heap.free ensures a + heap.size[a] != b {
          if a + heap.size[a] == b { TwoFit(heap.size, heap.pages, a, b); }
        }
      }
    }

    // The part for one list; it starts over after every merge.
    method MergeList(i: nat, ghost uses0: map<Addr, Use>, ghost pages0: set<nat>, ghost f: set<nat>,
                     ghost d: Headers, ghost merged0: seq<Addr>)
      returns (ghost merged: seq<Addr>)
      requires Valid() && i <= N_HBLK_FLS && DoneUpTo(i, 0) && Occupies(uses0, pages0, f)
      requires AllMergeable(d, merged0) && Told() == MergeThese(d, merged0)
      modifies heap.mem, heap.fl, heap`away, heap`last, heap`freeBytes, heap`on, heap`free, heap`size
      ensures Valid() && DoneUpTo(i + 1, 0) && Occupies(uses0, pages0, f)
      ensures AllMergeable(d, merged) && Told() == MergeThese(d, merged)
    {
      hide Heap.Sound, Heap.Mapped, Seen, Unmergeable, Occupies, Bin, Join, Made, Told, Mergeable, MergeOne;
      hide MergeThese, AllMergeable;
      merged := merged0;
      Listing(i);
      var h := heap.fl.heads[i];
      ghost var j := 0;
      while h != 0
        invariant Valid() && DoneUpTo(i, j) && Occupies(uses0, pages0, f)
        invariant i < |heap.fl.lists| && j <= |heap.fl.lists[i]| && h == At(heap.fl.lists[i], j)
        invariant h == 0 <==> j == |heap.fl.lists[i]|
        invariant AllMergeable(d, merged) && Told() == MergeThese(d, merged)
        decreases |heap.free|, |heap.fl.lists[i]| - j
      {
        SeenStep(i, j);
        var size := heap.size[h];
        var next := h + size;
        if next in heap.size && next in heap.free && size + heap.size[next] < MAX_BLOCKS {
          ghost var size0, free0 := heap.size, heap.free;
          BeforeMerge(i, j, h, next, uses0, pages0, f);
          IsMergeable(h, next);
          MergeTwo(h, next);
          MergeMore(d, merged, h);
          merged := merged + [h];
          Listing(i);
          AfterMerge(i, size0, free0, h, next, uses0, pages0, f);
          h := heap.fl.heads[i];
          j := 0;
        } else {
          NotMerged(h);
          h := heap.fl.next[h];
          j := j + 1;
        }
      }
      SeenList(i);
    }

    lemma IsMergeable(h: Addr, next: Addr)
      requires h in heap.free && h in heap.size && next == h + heap.size[h] && next in heap.free && next in heap.size
      requires heap.size[h] + heap.size[next] < MAX_BLOCKS
      ensures Mergeable(Told(), h)
    {
    }

    lemma NotMerged(h: Addr)
      requires h in heap.size
      requires var n := h + heap.size[h];
               !(n in heap.size && n in heap.free && heap.size[h] + heap.size[n] < MAX_BLOCKS)
      ensures Unmergeable(heap.size, heap.free, h)
    {
    }

    // What is known of the lists before the ith.
    lemma BeforeMerge(i: nat, j: nat, h: Addr, next: Addr, uses0: map<Addr, Use>, pages0: set<nat>, f: set<nat>)
      requires Occupies(uses0, pages0, f) && heap.Sound() && DoneUpTo(i, j) && i < |heap.fl.lists| && h in heap.free
      requires h in heap.size
      requires next == h + heap.size[h] && next in heap.size && next in heap.free
      ensures LowDone(heap.size, heap.free, i) && Tiled(heap.size, heap.pages)
      ensures heap.uses == uses0 && heap.pages == pages0 && FreePages(heap.size, heap.free, pages0) == f
    {
      forall a | a in heap.free && Bin(Sz(heap.size, a)) < i ensures Unmergeable(heap.size, heap.free, a) {
        assert Seen(a, i, j);
      }
    }

    lemma AfterMerge(i: nat, size0: map<Addr, nat>, free0: set<Addr>, h: Addr, next: Addr,
                     uses0: map<Addr, Use>, pages0: set<nat>, f: set<nat>)
      requires heap.Sound() && i < |heap.fl.lists| && LowDone(size0, free0, i) && h in free0 && next in free0
      requires h in size0
      requires Made(size0, free0, uses0, pages0, h, next) && Tiled(size0, pages0) && i == Bin(size0[h])
      requires FreePages(size0, free0, pages0) == f
      ensures DoneUpTo(i, 0) && Occupies(uses0, pages0, f) && |heap.free| < |free0|
    {
      hide Heap.Sound, Tiled, Join, Bin, LowDone, FreePages, DoneUpTo, FreeLists.Valid;
      FreeJoin(size0, free0, pages0, h);
      LowStays(size0, free0, pages0, h, i);
      LowIsDone(i);
      FewerFree(free0, next);
    }

    lemma LowIsDone(i: nat)
      requires i < |heap.fl.lists| && LowDone(heap.size, heap.free, i)
      ensures DoneUpTo(i, 0)
    {
      hide Bin, Unmergeable;
      forall a | Seen(a, i, 0) ensures Unmergeable(heap.size, heap.free, a) {
        assert Bin(Sz(heap.size, a)) < i;
      }
    }

    // One of them, with any arguments; what the allocator's callers may not do is left out.  Not ok means that the
    // collector aborted.
    method Step(op: Op) returns (ok: bool)
      requires Valid() && heap.bl.Valid()
      modifies heap.mem, heap.fl, heap`away, heap`last, heap`freeBytes, heap`on, heap`free, heap`size, heap`uses,
               heap`largeFree, heap`drops, heap`odd, heap`pages, heap`heapSize, heap`sects, heap`gcNo
      ensures Valid() && heap.gcNo == old(heap.gcNo) + (if op == NextGcOp then 1 else 0)
      ensures !ok <==> op.GrowOp? && op.n > 0 && op.p + op.n <= MEMORY_END && old(Unused(op.p, op.n) && Full())
      ensures !ok ==> Full()
      ensures op == UnmapOp ==> heap.away == old(heap.away + OldOnes())
      ensures op == MergeOp ==> forall a <- heap.free :: Unmergeable(heap.size, heap.free, a)
      ensures op.FreeOp? ==> op.h !in heap.uses
      ensures ok && op.GrowOp? && op.n > 0 && op.p + op.n <= MEMORY_END && old(Unused(op.p, op.n)) ==>
                heap.pages == old(heap.pages) + Addressable(Run(op.p, op.n))
    {
      ok := true;
      hide Heap.Valid, Run, Addressable, Unused, OldOnes, Unmergeable;
      match op {
        case AllocOp(use, limit) =>
          if use.sz > 0 {
            var r;
            ghost var home, dropped, lists, left;
            r, home, dropped, lists, left := heap.Alloc(use, limit);
          }
        case FreeOp(h) =>
          if h in heap.uses {
            InHeap(h);
            ghost var cur;
            ok, cur := heap.FreeHblk(h);
          }
        case GrowOp(p, n) =>
          if n > 0 && p + n <= MEMORY_END && Unused(p, n) {
            UnusedPages(p, n);
            ok := heap.AddToHeap(p, n);
          }
        case UnmapOp => UnmapOld();
        case MergeOp => { ghost var merged := MergeUnmapped(); }
        case NextGcOp => NextGc();
      }
    }

    // There is no room in the table of heap sections.
    predicate Full()
      reads heap`sects
    {
      heap.sects >= MAX_HEAP_SECTS
    }

    // The memory belongs to no block.
    predicate Unused(p: Addr, n: nat)
      reads heap`size
    {
      forall a <- heap.size :: a + heap.size[a] <= p || p + n <= a
    }

    lemma UnusedPages(p: Addr, n: nat)
      requires heap.Valid() && Unused(p, n)
      ensures Run(p, n) !! heap.pages
    {
      forall x | x in heap.pages ensures x !in Run(p, n) {
        RunIn(p, n, x);
        assert exists a :: Covers(heap.size, a, x);
      }
    }

    lemma InHeap(h: Addr)
      requires heap.Valid() && h in heap.uses
      ensures h in heap.size && h !in heap.free
    {
    }

    method NextGc()
      requires Valid()
      modifies heap`gcNo
      ensures Valid() && heap.gcNo == old(heap.gcNo) + 1
    {
      heap.gcNo := heap.gcNo + 1;
    }

    // The account is right after any sequence of such calls: GC_unmapped_bytes is the size of the whole pages of the
    // free blocks marked as unmapped, no other page is without memory, and no byte of the heap is lost.  Not ok means
    // that the collector aborted in the last of the calls done, for want of room in the table of heap sections.
    method Steps(ops: seq<Op>) returns (ok: bool, done: nat)
      requires Valid() && heap.bl.Valid()
      modifies heap.mem, heap.fl, heap`away, heap`last, heap`freeBytes, heap`on, heap`free, heap`size, heap`uses,
               heap`largeFree, heap`drops, heap`odd, heap`pages, heap`heapSize, heap`sects, heap`gcNo
      ensures Valid() && done <= |ops| && (ok ==> done == |ops|)
      ensures heap.gcNo == old(heap.gcNo) + Collections(ops[..done])
      ensures !ok ==> done > 0 && ops[done - 1].GrowOp? && Full()
      ensures heap.mem.unmappedBytes == heap.mem.page * |heap.mem.unmapped|
      ensures Backed(heap.size, heap.away, heap.mem.page, heap.mem.unmapped) && heap.away <= heap.free
      ensures |UsedPages(heap.size, heap.free, heap.pages)| + heap.largeFree == heap.heapSize
    {
      hide *;
      ok, done := true, 0;
      NoCollections(ops);
      while ok && done < |ops|
        invariant done <= |ops| && Valid() && heap.gcNo == old(heap.gcNo) + Collections(ops[..done])
        invariant !ok ==> done > 0 && ops[done - 1].GrowOp? && Full()
      {
        CollectionsNext(ops, done);
        ok := Step(ops[done]);
        done := done + 1;
      }
      Accounts();
    }

    lemma Accounts()
      requires Valid()
      ensures heap.mem.unmappedBytes == heap.mem.page * |heap.mem.unmapped|
      ensures Backed(heap.size, heap.away, heap.mem.page, heap.mem.unmapped) && heap.away <= heap.free
      ensures |UsedPages(heap.size, heap.free, heap.pages)| + heap.largeFree == heap.heapSize
    {
      hide Heap.Sound, Backed, UsedPages;
      heap.Conserved();
    }
  }

  // How many collections begin.
  function Collections(ops: seq<Op>): nat {
    if ops == [] then 0 else Collections(ops[..|ops| - 1]) + if ops[|ops| - 1] == NextGcOp then 1 else 0
  }

  lemma NoCollections(ops: seq<Op>)
    ensures Collections(ops[..0]) == 0
  {
  }

  lemma CollectionsNext(ops: seq<Op>, i: nat)
    requires i < |ops|
    ensures Collections(ops[..i + 1]) == Collections(ops[..i]) + if ops[i] == NextGcOp then 1 else 0
  {
    assert ops[..i + 1][..i] == ops[..i];
  }

  // The free blocks on the lists before the ith cannot be merged.
  ghost predicate LowDone(size: map<Addr, nat>, free: set<Addr>, i: nat) {
    forall a :: a in free && Bin(Sz(size, a)) < i ==> Unmergeable(size, free, a)
  }

  // That is still so when a block of the ith list is merged, since it only becomes larger.
  lemma LowStays(size: map<Addr, nat>, free: set<Addr>, pages: set<nat>, h: Addr, i: nat)
    requires Tiled(size, pages) && h in size && h in free && i == Bin(size[h]) && LowDone(size, free, i)
    requires h + size[h] in size && h + size[h] in free
    ensures LowDone(Join(size, h), free - {h + size[h]}, i)
  {
    hide Tiled, Join, Unmergeable, Bin;
    var n, j := h + size[h], Join(size, h);
    JoinSizes(size, pages, h);
    BinMonotone(size[h], j[h]);
    forall a | a in free - {n} && Bin(Sz(j, a)) < i ensures Unmergeable(j, free - {n}, a) {
      assert a != h;
      assert Sz(j, a) == Sz(size, a);
      UnmergeableStays(size, free, pages, h, a);
    }
  }

  lemma Merging(size: map<Addr, nat>, pages: set<nat>, free: set<Addr>, h: Addr, next: Addr)
    requires Tiled(size, pages) && h in free && h in size && next == h + size[h] && next in free && next in size
    ensures h != next && (free - {h} - {next}) + {h} == free - {next} && h in Join(size, h)
  {
  }

  lemma JoinSizes(size: map<Addr, nat>, pages: set<nat>, h: Addr)
    requires Tiled(size, pages) && h in size && h + size[h] in size
    ensures h in Join(size, h) && size[h] < Join(size, h)[h]
    ensures forall a :: a != h && a != h + size[h] ==> Sz(Join(size, h), a) == Sz(size, a)
  {
  }

  lemma UnmergeableStays(size: map<Addr, nat>, free: set<Addr>, pages: set<nat>, h: Addr, a: Addr)
    requires Tiled(size, pages) && h in size && h + size[h] in size && Unmergeable(size, free, a)
    requires a != h && a != h + size[h] && h in free
    ensures Unmergeable(Join(size, h), free - {h + size[h]}, a)
  {
  }
}
