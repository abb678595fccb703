/** Dirty bits kept by write-protecting the heap (MPROTECT_VDB in os_dep.c): two hashed bit tables over the heap
 *  blocks, and a handler for the faults of writes to protected pages.  Addresses are counted in heap blocks.
 */
module DirtyBits {
  import opened Arithmetic
  import opened FreeLists
  import opened HeapBlocks
  import opened BlackList

  // The heap as the headers show it: its blocks, those that are free, those in use that hold no pointers.
  datatype View = View(size: map<Addr, nat>, free: set<Addr>, ptrFree: set<Addr>, pages: set<nat>) {
    ghost predicate Valid() {
      Tiled(size, pages) && free <= size.Keys && ptrFree <= size.Keys
    }

    predicate InUse(a: Addr) {
      a in size && a !in free
    }

    predicate HasPointers(a: Addr) {
      InUse(a) && a !in ptrFree
    }

    ghost predicate PtrPage(a: Addr, p: nat) {
      HasPointers(a) && Covers(size, a, p)
    }

    // The pages of the blocks with pointers that start at s or later, but before x.
    ghost function From(s: nat, x: nat): set<nat> {
      set p | p in pages && exists a :: s <= a < x && PtrPage(a, p)
    }

    ghost function Pointers(): set<nat> {
      set p | p in pages && exists a :: PtrPage(a, p)
    }
  }

  ghost predicate Sections(sects: seq<(Addr, nat)>, pages: set<nat>) {
    forall p: nat :: p in pages <==> exists i :: 0 <= i < |sects| && sects[i].0 <= p < sects[i].0 + sects[i].1
  }

  // The bit for block h.
  predicate IsSet(bits: seq<nat>, h: nat)
    requires |bits| > 0
  {
    Entry(bits, BlackList.Hash(h, |bits|))
  }

  // Every page with pointers is protected or known to be dirty, and known to be dirty if it was written.
  ghost predicate Safe(v: View, guarded: set<nat>, written: set<nat>, bits: seq<nat>)
    requires |bits| > 0
  {
    && (forall p :: p in v.Pointers() && p !in guarded ==> IsSet(bits, p))
    && (forall p :: p in v.Pointers() && p in written ==> IsSet(bits, p))
  }

  // Bits are only added.
  ghost predicate More(bits: seq<nat>, bits2: seq<nat>)
    requires |bits| > 0
  {
    |bits2| == |bits| && forall p: nat :: IsSet(bits, p) ==> IsSet(bits2, p)
  }

  // The bits that are added are those for the blocks of s, which other blocks may share.
  ghost predicate Added(bits: seq<nat>, bits2: seq<nat>, s: set<nat>)
    requires |bits| > 0
  {
    && |bits2| == |bits|
    && forall p: nat :: IsSet(bits2, p) <==> IsSet(bits, p) || Shared(s, p, |bits|)
  }

  // Some block of s shares its bit with block p.
  ghost predicate Shared(s: set<nat>, p: nat, n: nat)
    requires n > 0
  {
    exists q: nat :: q in s && BlackList.Hash(q, n) == BlackList.Hash(p, n)
  }

  lemma AddedNone(bits: seq<nat>)
    requires |bits| > 0
    ensures Added(bits, bits, {})
  {
    hide IsSet;
  }

  lemma AddedMore(bits: seq<nat>, bits2: seq<nat>, s: set<nat>)
    requires |bits| > 0 && Added(bits, bits2, s)
    ensures More(bits, bits2) && |bits2| > 0 && forall p: nat :: p in s ==> IsSet(bits2, p)
  {
    hide IsSet;
    forall p: nat | p in s ensures IsSet(bits2, p) { assert Shared(s, p, |bits|); }
  }

  lemma AddedOne(bits: seq<nat>, bits1: seq<nat>, bits2: seq<nat>, s: set<nat>, h: nat)
    requires |bits| > 0 && Added(bits, bits1, s) && |bits1| > 0 && Added(bits1, bits2, {h})
    ensures Added(bits, bits2, s + {h})
  {
    hide IsSet, BlackList.Hash;
    forall p: nat ensures Shared(s + {h}, p, |bits|) <==> Shared(s, p, |bits|) || Shared({h}, p, |bits|) {
      if Shared(s, p, |bits|) {
        var q: nat :| q in s && BlackList.Hash(q, |bits|) == BlackList.Hash(p, |bits|);
        assert q in s + {h};
      }
      if Shared({h}, p, |bits|) {
        assert h in s + {h} && BlackList.Hash(h, |bits|) == BlackList.Hash(p, |bits|);
      }
    }
  }

  lemma MoreSame(bits: seq<nat>)
    requires |bits| > 0
    ensures More(bits, bits)
  {
  }

  lemma SetOne(bits: seq<nat>, h: nat)
    requires |bits| > 0
    ensures var i := BlackList.Hash(h, |bits|);
            var bits2 := bits[i / WORDSZ := SetBit(bits[i / WORDSZ], i % WORDSZ)];
            IsSet(bits2, h) && Added(bits, bits2, {h})
  {
    var i := BlackList.Hash(h, |bits|);
    var bits2 := bits[i / WORDSZ := SetBit(bits[i / WORDSZ], i % WORDSZ)];
    forall p: nat ensures IsSet(bits2, p) <==> IsSet(bits, p) || BlackList.Hash(p, |bits|) == i {
      var j := BlackList.Hash(p, |bits|);
      SetBitSets(bits[i / WORDSZ], i % WORDSZ, j % WORDSZ);
    }
    forall p: nat ensures Shared({h}, p, |bits|) <==> BlackList.Hash(p, |bits|) == i {
      if BlackList.Hash(p, |bits|) == i { assert h in {h}; }
    }
  }

  // Blocks as far apart as the table is large share a bit.
  lemma SharedBit(bits: seq<nat>, h: nat)
    requires |bits| > 0
    ensures IsSet(bits, h + |bits| * WORDSZ) <==> IsSet(bits, h)
  {
    SameRemainder(h, |bits| * WORDSZ);
  }

  lemma SameRemainder(h: nat, m: nat)
    requires m > 0
    ensures (h + m) % m == h % m
  {
    DivMod(h, m);
    Multiples(h / m, h / m + 1, m);
    Quotient(h + m, m, h / m + 1);
    Remainder(h, m);
  }

  lemma SinglePage(h: nat)
    ensures Truncated(h, 1) == h && Truncated(h + 1 + 1 - 1, 1) == h + 1
  {
  }

  // Two blocks of one page each that share a bit.
  function Twins(n: nat): View {
    var twin := 1 + n * WORDSZ;
    View(map[1 := 1, twin := 1], {1, twin}, {}, {1, twin})
  }

  lemma TwinsValid(n: nat)
    requires n > 0
    ensures Twins(n).Valid() && Twins(n).Pointers() == {} && Sections([(1, 1), (1 + n * WORDSZ, 1)], Twins(n).pages)
  {
    var v, twin := Twins(n), 1 + n * WORDSZ;
    assert n * WORDSZ > 0;
    forall p | p in v.pages ensures Covers(v.size, p, p) {}
    var sects := [(1, 1), (twin, 1)];
    forall p: nat ensures p in v.pages <==> exists i :: 0 <= i < |sects| && sects[i].0 <= p < sects[i].0 + sects[i].1 {
      if p == 1 { assert sects[0].0 <= p < sects[0].0 + sects[0].1; }
      if p == twin { assert sects[1].0 <= p < sects[1].0 + sects[1].1; }
    }
  }

  lemma NoneSet(bits: seq<nat>)
    requires |bits| > 0 && forall i :: 0 <= i < |bits| ==> bits[i] == 0
    ensures forall p: nat :: !IsSet(bits, p)
  {
    forall p: nat ensures !IsSet(bits, p) { ZeroBit(BlackList.Hash(p, |bits|) % WORDSZ); }
  }

  // Blocks whose bits are set need no protection.
  lemma SafeLess(v: View, guarded: set<nat>, written: set<nat>, bits: seq<nat>, bits2: seq<nat>, h: nat, k: nat)
    requires |bits| > 0 && Safe(v, guarded, written, bits) && More(bits, bits2)
    requires forall p: nat :: h <= p < h + k ==> IsSet(bits2, p)
    ensures Safe(v, guarded - Run(h, k), written, bits2)
  {
    hide IsSet;
    forall p: nat ensures p in Run(h, k) <==> h <= p < h + k { RunIn(h, k, p); }
  }

  // The start of the system page of block h.
  function Truncated(h: nat, pageBlocks: nat): nat
    requires pageBlocks > 0
  {
    h / pageBlocks * pageBlocks
  }

  // The blocks from trunc to end but, if they hold no pointers, the k blocks that start at h.
  ghost function ToMark(trunc: nat, end: nat, h: nat, k: nat, isPtrFree: bool): set<nat>
    requires trunc <= end
  {
    Run(trunc, end - trunc) - if isPtrFree then Run(h, k) else {}
  }

  lemma InToMark(trunc: nat, end: nat, h: nat, k: nat, isPtrFree: bool, p: nat)
    requires trunc <= end
    ensures p in ToMark(trunc, end, h, k, isPtrFree) <==> trunc <= p < end && (!isPtrFree || p < h || p >= h + k)
  {
    RunIn(trunc, end - trunc, p);
    RunIn(h, k, p);
  }

  // Protection is lifted from the pages of k blocks starting at h, and the blocks on them that may have pointers, and
  // no others, are marked as dirty; if it seems that the only block is dirty and so has no protection, nothing is done.
  ghost predicate Lifted(guarded: set<nat>, bits: seq<nat>, guarded2: set<nat>, bits2: seq<nat>,
                         h: nat, k: nat, pageBlocks: nat, isPtrFree: bool)
    requires |bits| > 0 && |bits2| > 0 && pageBlocks > 0
  {
    var trunc, end := Truncated(h, pageBlocks), Truncated(h + k + pageBlocks - 1, pageBlocks);
    if end == trunc + 1 && IsSet(bits, trunc) then guarded2 == guarded && bits2 == bits
    else
      && end >= trunc && guarded2 == guarded - Run(trunc, end - trunc)
      && Added(bits, bits2, ToMark(trunc, end, h, k, isPtrFree))
  }

  // What GC_remove_protection promises: no page of the blocks is protected afterwards.  It holds if and only if not all
  // of this was so before the call: the blocks lie on a single system page of one block, its bit is set, and it is
  // protected all the same.
  lemma ProtectionGone(guarded: set<nat>, bits: seq<nat>, guarded2: set<nat>, bits2: seq<nat>,
                       h: nat, k: nat, pageBlocks: nat, isPtrFree: bool)
    requires |bits| > 0 && |bits2| > 0 && pageBlocks > 0 && k > 0
    requires Lifted(guarded, bits, guarded2, bits2, h, k, pageBlocks, isPtrFree)
    ensures var trunc, end := Truncated(h, pageBlocks), Truncated(h + k + pageBlocks - 1, pageBlocks);
            (forall p: nat :: trunc <= p < end ==> p !in guarded2) <==>
            !(end == trunc + 1 && IsSet(bits, trunc) && trunc in guarded)
  {
    hide IsSet;
    var trunc, end := Truncated(h, pageBlocks), Truncated(h + k + pageBlocks - 1, pageBlocks);
    Covering(h, k, pageBlocks);
    if end == trunc + 1 && IsSet(bits, trunc) {
      assert trunc in guarded ==> trunc in guarded2;
    } else {
      forall p: nat | trunc <= p < end ensures p !in guarded2 { RunIn(trunc, end - trunc, p); }
    }
  }

  // What it promises besides for blocks that may have pointers: all the pages seem dirty afterwards.
  lemma ProtectionDirty(guarded: set<nat>, bits: seq<nat>, guarded2: set<nat>, bits2: seq<nat>, h: nat, k: nat,
                        pageBlocks: nat)
    requires |bits| > 0 && pageBlocks > 0 && More(bits, bits2) && |bits2| > 0
    requires Lifted(guarded, bits, guarded2, bits2, h, k, pageBlocks, false)
    ensures forall p: nat :: Truncated(h, pageBlocks) <= p < Truncated(h + k + pageBlocks - 1, pageBlocks) ==>
              IsSet(bits2, p)
  {
    hide IsSet, Truncated;
    var trunc, end := Truncated(h, pageBlocks), Truncated(h + k + pageBlocks - 1, pageBlocks);
    if !(end == trunc + 1 && IsSet(bits, trunc)) {
      AddedMore(bits, bits2, ToMark(trunc, end, h, k, false));
      forall p: nat | trunc <= p < end ensures IsSet(bits2, p) { InToMark(trunc, end, h, k, false, p); }
    }
  }

  lemma Inside(b: nat, pageBlocks: nat)
    requires pageBlocks > 0
    ensures Truncated(b, pageBlocks) <= b < Truncated(b, pageBlocks) + pageBlocks
  {
    DivMod(b, pageBlocks);
  }

  lemma Covering(h: nat, k: nat, pageBlocks: nat)
    requires pageBlocks > 0
    ensures Truncated(h, pageBlocks) <= h && h + k <= Truncated(h + k + pageBlocks - 1, pageBlocks)
  {
    DivMod(h, pageBlocks);
    DivMod(h + k + pageBlocks - 1, pageBlocks);
  }

  // The pages with pointers are the ones from before, and those of block a if it has pointers.
  lemma PointersAlloc(v: View, v2: View, a: Addr, p: nat, isPtrFree: bool)
    requires v.Valid() && a in v.size && a in v.free && p in v2.Pointers()
    requires v2 == v.(free := v.free - {a}, ptrFree := if isPtrFree then v.ptrFree + {a} else v.ptrFree - {a})
    ensures if a <= p < a + v.size[a] then !isPtrFree else p in v.Pointers()
  {
    hide Tiled;
    var x :| v2.PtrPage(x, p);
    if x != a {
      assert v.PtrPage(x, p);
      if Covers(v.size, a, p) { CoversOnce(v.size, v.pages, a, x, p); }
    }
  }

  // One page with pointers when block a comes into use.
  lemma SafePage(guarded: set<nat>, bits: seq<nat>, guarded2: set<nat>, bits2: seq<nat>,
                 a: Addr, k: nat, pageBlocks: nat, isPtrFree: bool, p: nat, inWritten: bool)
    requires |bits| > 0 && |bits2| > 0 && pageBlocks > 0 && k > 0
    requires Lifted(guarded, bits, guarded2, bits2, a, k, pageBlocks, isPtrFree) && (IsSet(bits, p) ==> IsSet(bits2, p))
    requires if a <= p < a + k then !isPtrFree else (p !in guarded || inWritten ==> IsSet(bits, p))
    ensures p !in guarded2 || inWritten ==> IsSet(bits2, p)
  {
    hide IsSet, Truncated, Run;
    Covering(a, k, pageBlocks);
    var trunc, end := Truncated(a, pageBlocks), Truncated(a + k + pageBlocks - 1, pageBlocks);
    if trunc <= end { RunIn(trunc, end - trunc, p); }
    if !(end == trunc + 1 && IsSet(bits, trunc)) {
      AddedMore(bits, bits2, ToMark(trunc, end, a, k, isPtrFree));
      InToMark(trunc, end, a, k, isPtrFree, p);
    }
  }

  // A block comes into use.
  lemma SafeAlloc(v: View, guarded: set<nat>, written: set<nat>, bits: seq<nat>, guarded2: set<nat>, bits2: seq<nat>,
                  a: Addr, pageBlocks: nat, isPtrFree: bool)
    requires |bits| > 0 && Safe(v, guarded, written, bits) && More(bits, bits2) && a in v.size && a in v.free
    requires v.size[a] > 0
    requires pageBlocks > 0 && Lifted(guarded, bits, guarded2, bits2, a, v.size[a], pageBlocks, isPtrFree) && v.Valid()
    ensures Safe(v.(free := v.free - {a}, ptrFree := if isPtrFree then v.ptrFree + {a} else v.ptrFree - {a}),
                 guarded2, written, bits2)
  {
    var v2 := v.(free := v.free - {a}, ptrFree := if isPtrFree then v.ptrFree + {a} else v.ptrFree - {a});
    hide IsSet, Tiled, Lifted, View.Pointers;
    forall p | p in v2.Pointers() ensures p !in guarded2 || p in written ==> IsSet(bits2, p) {
      PointersAlloc(v, v2, a, p, isPtrFree);
      SafePage(guarded, bits, guarded2, bits2, a, v.size[a], pageBlocks, isPtrFree, p, p in written);
    }
  }

  lemma SafeFree(v: View, guarded: set<nat>, written: set<nat>, bits: seq<nat>, a: Addr)
    requires |bits| > 0 && Safe(v, guarded, written, bits)
    ensures Safe(v.(free := v.free + {a}), guarded, written, bits)
  {
    hide IsSet;
    var v2 := v.(free := v.free + {a});
    forall p | p in v2.Pointers() ensures p in v.Pointers() {
      var x :| v2.PtrPage(x, p);
      assert v.PtrPage(x, p);
    }
  }

  // No block starts in [limit, x).
  ghost predicate CoveredFrom(v: View, limit: nat, x: nat) {
    forall a <- v.size :: !(limit <= a < x)
  }

  lemma FromLimit(v: View, s: nat, limit: nat, x: nat)
    requires limit <= x && (x > limit ==> CoveredFrom(v, limit, x))
    ensures v.From(s, x) == v.From(s, limit)
  {
    forall p ensures p in v.From(s, x) <==> p in v.From(s, limit) {}
  }

  lemma FromSplit(v: View, s: nat, m: nat, x: nat)
    requires s <= m <= x
    ensures v.From(s, x) == v.From(s, m) + v.From(m, x)
  {
    forall p ensures p in v.From(s, x) <==> p in v.From(s, m) || p in v.From(m, x) {}
  }

  lemma FromNone(v: View, s: nat)
    ensures v.From(s, s) == {}
  {
  }

  // From x to y there is one block, or none starts there.
  lemma FromStep(v: View, s: nat, x: nat, y: nat)
    requires v.Valid() && s <= x < y && y == (if x in v.size then x + v.size[x] else x + 1)
    ensures forall l: nat :: x < l <= y ==> CoveredFrom(v, l, y)
    ensures forall p: nat :: p in v.From(s, y) <==> p in v.From(s, x) || (v.HasPointers(x) && x <= p < y)
    ensures !v.HasPointers(x) ==> v.From(s, y) == v.From(s, x)
  {
    assert CoveredFrom(v, x + 1, y);
    forall p: nat ensures p in v.From(s, y) <==> p in v.From(s, x) || (v.HasPointers(x) && x <= p < y) {
      if v.HasPointers(x) && x <= p < y {
        assert Covers(v.size, x, p);
        assert v.PtrPage(x, p);
      }
    }
  }

  lemma RunIs(a: nat, b: nat, s: set<nat>)
    requires a <= b && forall p: nat :: a <= p < b <==> p in s
    ensures Run(a, b - a) == s
  {
    forall p: nat ensures p in Run(a, b - a) <==> p in s { RunIn(a, b - a, p); }
  }

  class Vdb {
    const pageBlocks: nat          // GC_page_size in blocks
    const n: nat                   // words in each table
    const dirty: array<nat>        // GC_dirty_pages
    const grungy: array<nat>       // GC_grungy_pages
    var view: View
    var sects: seq<(Addr, nat)>    // GC_heap_sects
    var guarded: set<nat>          // the blocks that the system lets nobody write to
    ghost var written: set<nat>    // the blocks written since the dirty bits were last read

    ghost predicate Sized()
    {
      pageBlocks > 0 && n > 0 && dirty.Length == n && grungy.Length == n && dirty != grungy
    }

    // The sections are the heap.
    ghost predicate Sectioned()
      reads this
    {
      Sections(sects, view.pages)
    }

    ghost predicate Valid()
      reads this, dirty
    {
      Sized() && view.Valid() && Sectioned() && Safe(view, guarded, written, dirty[..])
    }

    constructor (page: nat, words: nat, v: View, s: seq<(Addr, nat)>)
      requires page > 0 && words > 0 && v.Valid()
      requires Sections(s, v.pages)
      requires v.Pointers() == {}
      ensures Valid() && view == v && sects == s && guarded == {} && pageBlocks == page && n == words
      ensures fresh(dirty) && fresh(grungy)
    {
      pageBlocks, n, view, sects, guarded, written := page, words, v, s, {}, {};
      dirty := new nat[words](i => 0);
      grungy := new nat[words](i => 0);
    }

    // async_set_pht_entry_from_index on GC_dirty_pages
    method SetDirty(h: nat)
      requires Sized()
      modifies dirty
      ensures IsSet(dirty[..], h) && Added(old(dirty[..]), dirty[..], {h})
    {
      SetOne(dirty[..], h);
      var i := BlackList.Hash(h, n);
      dirty[i / WORDSZ] := SetBit(dirty[i / WORDSZ], i % WORDSZ);
      assert dirty[..] == old(dirty[..])[i / WORDSZ := SetBit(old(dirty[..])[i / WORDSZ], i % WORDSZ)];
    }

    // GC_write_fault_handler, for a write to the heap
    method Fault(b: nat)
      requires Valid()
      modifies this, dirty
      ensures Valid() && view == old(view) && sects == old(sects) && written == old(written)
      ensures guarded == old(guarded) - Run(Truncated(b, pageBlocks), pageBlocks)
      ensures b !in guarded && IsSet(dirty[..], b)
      ensures Added(old(dirty[..]), dirty[..], Run(Truncated(b, pageBlocks), pageBlocks))
    {
      hide Safe, IsSet, Truncated, Added;
      Inside(b, pageBlocks);
      var h := Truncated(b, pageBlocks);
      guarded := guarded - Run(h, pageBlocks);
      var i := 0;
      AddedNone(dirty[..]);
      ghost var s: set<nat> := {};
      while i < pageBlocks
        modifies dirty
        invariant i <= pageBlocks && Added(old(dirty[..]), dirty[..], s)
        invariant forall p: nat :: h <= p < h + i <==> p in s
      {
        ghost var bits := dirty[..];
        SetDirty(h + i);
        AddedOne(old(dirty[..]), bits, dirty[..], s, h + i);
        s := s + {h + i};
        i := i + 1;
      }
      RunIn(h, pageBlocks, b);
      RunIs(h, h + pageBlocks, s);
      AddedMore(old(dirty[..]), dirty[..], s);
      SafeLess(view, old(guarded), written, old(dirty[..]), dirty[..], h, pageBlocks);
    }

    // The program writes to block b.
    method Write(b: nat)
      requires Valid() && exists a :: view.InUse(a) && Covers(view.size, a, b)
      modifies this, dirty
      ensures Valid() && view == old(view) && sects == old(sects) && written == old(written) + {b}
      ensures guarded == old(guarded) - if b in old(guarded) then Run(Truncated(b, pageBlocks), pageBlocks) else {}
      ensures b in old(guarded) ==> IsSet(dirty[..], b)
      ensures if b in old(guarded) then Added(old(dirty[..]), dirty[..], Run(Truncated(b, pageBlocks), pageBlocks))
              else dirty[..] == old(dirty[..])
    {
      if b in guarded { Fault(b); }
      written := written + {b};
    }

    // GC_remove_protection.  If the dirty bit of a single block is set it is taken not to be protected; the bit may
    // have been set for another block, though, and then it stays protected.
    method RemoveProtection(h: Addr, nblocks: nat, isPtrFree: bool)
      requires Sized() && nblocks > 0
      modifies `guarded, dirty
      ensures More(old(dirty[..]), dirty[..])
      ensures Lifted(old(guarded), old(dirty[..]), guarded, dirty[..], h, nblocks, pageBlocks, isPtrFree)
    {
      hide IsSet, Run, More, Truncated, Added;
      Covering(h, nblocks, pageBlocks);
      MoreSame(dirty[..]);
      var trunc, end := Truncated(h, pageBlocks), Truncated(h + nblocks + pageBlocks - 1, pageBlocks);
      if end == trunc + 1 && IsSet(dirty[..], trunc) {
        return;
      }
      var current := trunc;
      AddedNone(dirty[..]);
      ghost var s: set<nat> := {};
      while current < end
        modifies dirty
        invariant trunc <= current <= end && Added(old(dirty[..]), dirty[..], s)
        invariant forall p: nat :: p in s <==> trunc <= p < current && (!isPtrFree || p < h || p >= h + nblocks)
      {
        if !isPtrFree || current < h || current >= h + nblocks {
          ghost var bits := dirty[..];
          SetDirty(current);
          AddedOne(old(dirty[..]), bits, dirty[..], s, current);
          s := s + {current};
        }
        current := current + 1;
      }
      forall p: nat ensures p in s <==> p in ToMark(trunc, end, h, nblocks, isPtrFree) {
        InToMark(trunc, end, h, nblocks, isPtrFree, p);
      }
      assert s == ToMark(trunc, end, h, nblocks, isPtrFree);
      AddedMore(old(dirty[..]), dirty[..], s);
      guarded := guarded - Run(trunc, end - trunc);
    }

    // A free block comes into use; the end of GC_allochblk_nth.
    method Allocate(a: Addr, isPtrFree: bool)
      requires Valid() && a in view.free && a in view.size
      modifies this, dirty
      ensures Valid() && sects == old(sects) && written == old(written)
      ensures view == old(view).(free := old(view).free - {a},
                                 ptrFree := if isPtrFree then old(view).ptrFree + {a} else old(view).ptrFree - {a})
      ensures Lifted(old(guarded), old(dirty[..]), guarded, dirty[..], a, view.size[a], pageBlocks, isPtrFree)
    {
      hide Safe, IsSet, Lifted;
      ghost var guarded0, bits0 := guarded, dirty[..];
      RemoveProtection(a, view.size[a], isPtrFree);
      SafeAlloc(view, guarded0, written, bits0, guarded, dirty[..], a, pageBlocks, isPtrFree);
      view := view.(free := view.free - {a}, ptrFree := if isPtrFree then view.ptrFree + {a} else view.ptrFree - {a});
    }

    // A block is no longer in use.
    method Release(a: Addr)
      requires Valid() && a in view.size
      modifies `view
      ensures Valid() && view == old(view).(free := old(view).free + {a})
    {
      hide IsSet;
      SafeFree(view, guarded, written, dirty[..], a);
      view := view.(free := view.free + {a});
    }

    // GC_read_dirty: every page with pointers that was written since the last time will be said to have been dirty.
    method ReadDirty()
      requires Valid()
      modifies this, dirty, grungy
      ensures Valid() && view == old(view) && sects == old(sects) && written == {}
      ensures forall p: nat :: p in view.Pointers() && p in old(written) ==> WasDirty(p)
      ensures grungy[..] == old(dirty[..]) && forall p: nat :: !IsSet(dirty[..], p)
      ensures guarded == old(guarded) + if pageBlocks == 1 then view.Pointers() else view.pages
    {
      ghost var bits := dirty[..];
      var i := 0;
      while i < n
        modifies grungy
        invariant i <= n && grungy[..i] == bits[..i] && dirty[..] == bits
      {
        grungy[i] := dirty[i];
        i := i + 1;
      }
      assert grungy[..] == bits;
      i := 0;
      while i < n
        modifies dirty
        invariant i <= n && grungy[..] == bits && forall k :: 0 <= k < i ==> dirty[k] == 0
      {
        dirty[i] := 0;
        i := i + 1;
      }
      NoneSet(dirty[..]);
      written := {};
      ProtectHeap();
    }

    // HDR(h) == 0: no header and no count
    predicate NoHeader(h: nat)
      reads this
    {
      h !in view.size && forall a <- view.size :: view.InUse(a) ==> !(a <= h < a + view.size[a])
    }

    // GC_page_was_dirty
    predicate WasDirty(h: nat)
      requires Sized()
      reads this, grungy
    {
      NoHeader(h) || IsSet(grungy[..], h)
    }

    // GC_protect_heap.  If system pages are blocks, blocks without pointers and free ones are left out.
    method ProtectHeap()
      requires Sized() && view.Valid() && Sectioned()
      modifies `guarded
      ensures guarded == old(guarded) + if pageBlocks == 1 then view.Pointers() else view.pages
    {
      ghost var guarded0 := guarded;
      var i := 0;
      while i < |sects|
        invariant i <= |sects|
        invariant forall p: nat :: p in guarded <==> p in guarded0 || Reached(i, p)
      {
        if pageBlocks != 1 {
          guarded := guarded + Run(sects[i].0, sects[i].1);
        } else {
          ProtectSection(sects[i].0, sects[i].1);
        }
        i := i + 1;
      }
      forall p: nat ensures Reached(|sects|, p) <==> p in if pageBlocks == 1 then view.Pointers() else view.pages {
        ReachedAll(p);
      }
    }

    lemma ReachedAll(p: nat)
      requires view.Valid() && Sectioned()
      ensures Reached(|sects|, p) <==> p in if pageBlocks == 1 then view.Pointers() else view.pages
    {
      if pageBlocks == 1 {
        if p in view.Pointers() {
          var a: Addr :| view.PtrPage(a, p);
          assert Covers(view.size, a, a) && a in view.pages;
          var k :| 0 <= k < |sects| && sects[k].0 <= a < sects[k].0 + sects[k].1;
          assert p in view.From(sects[k].0, sects[k].0 + sects[k].1);
        }
      } else {
        forall k | 0 <= k < |sects|
          ensures p in Run(sects[k].0, sects[k].1) <==> sects[k].0 <= p < sects[k].0 + sects[k].1
        {
          RunIn(sects[k].0, sects[k].1, p);
        }
      }
    }

    // Page p is to be protected because of the first i sections.
    ghost predicate Reached(i: nat, p: nat)
      requires i <= |sects|
      reads this
    {
      exists k :: 0 <= k < i && p in
        if pageBlocks == 1 then view.From(sects[k].0, sects[k].0 + sects[k].1) else Run(sects[k].0, sects[k].1)
    }

    // The part for one section: neighbouring blocks with pointers are protected together.  At the start of the section
    // there may be pages of a block that starts in another one.
    method ProtectSection(start: Addr, len: nat)
      requires view.Valid() && forall p: nat :: start <= p < start + len ==> p in view.pages
      modifies `guarded
      ensures guarded == old(guarded) + view.From(start, start + len)
    {
      hide View.From, View.Valid, Run, CoveredFrom, EndsAt;
      FromNone(view, start);
      ghost var guarded0 := guarded;
      var currentStart, current, limit := start, start, start + len;
      while current < limit
        invariant start <= currentStart <= current
        invariant guarded == guarded0 + view.From(start, currentStart)
        invariant forall p: nat :: currentStart <= p < current <==> p in view.From(currentStart, current)
        invariant currentStart < current ==> EndsAt(current)
        invariant current > limit ==> CoveredFrom(view, limit, current)
      {
        Next(currentStart, current);
        StepEnds(current);
        FromSplit(view, start, currentStart, current);
        if current !in view.size {
          FromStep(view, start, current, current + 1);
          current := current + 1;
          currentStart := current;
          FromNone(view, current);
        } else if view.HasPointers(current) {
          FromStep(view, currentStart, current, current + view.size[current]);
          current := current + view.size[current];
        } else {
          if currentStart < current {
            RunIs(currentStart, current, view.From(currentStart, current));
            guarded := guarded + Run(currentStart, current - currentStart);
          }
          FromStep(view, start, current, current + view.size[current]);
          current := current + view.size[current];
          currentStart := current;
          FromNone(view, current);
        }
      }
      FromSplit(view, start, currentStart, current);
      if currentStart < current {
        RunIs(currentStart, current, view.From(currentStart, current));
        guarded := guarded + Run(currentStart, current - currentStart);
      }
      FromLimit(view, start, limit, current);
    }

    lemma StepEnds(x: nat)
      requires view.Valid()
      ensures x in view.size ==> EndsAt(x + view.size[x])
    {
    }

    // In the middle of a section there is a block at the end of every other.
    lemma Next(currentStart: nat, current: nat)
      requires view.Valid() && current in view.pages && (currentStart < current ==> EndsAt(current))
      ensures currentStart < current ==> current in view.size
      ensures current in view.size ==> view.size[current] > 0
    {
      if currentStart < current {
        var a: Addr :| a in view.size && a + view.size[a] == current;
        var b: Addr :| Covers(view.size, b, current);
        assert b == a || b + view.size[b] <= a || a + view.size[a] <= b;
      }
    }

    ghost predicate EndsAt(x: nat)
      reads this
    {
      exists a :: a in view.size && a + view.size[a] == x
    }
  }

  // A run, for a table of any size, after which a block that has just come into use is still protected: blocks 1 and
  // twin share a bit; both hold pointers when the dirty bits are read; then 1 is written, and twin is freed and used
  // again.
  method TwinStaysGuarded(n: nat) returns (v: Vdb)
    requires n > 0
    ensures v.Valid() && v.n == n && v.pageBlocks == 1
    ensures v.view.InUse(1 + n * WORDSZ) && 1 + n * WORDSZ in v.guarded
  {
    hide Safe, IsSet, View.Pointers, Truncated, Run, Covers, Sections, Tiled;
    var twin := 1 + n * WORDSZ;
    TwinsValid(n);
    v := new Vdb(1, n, Twins(n), [(1, 1), (twin, 1)]);
    v.Allocate(1, false);
    v.Allocate(twin, false);
    TwinsPointers(n, v.view);
    v.ReadDirty();
    v.Write(1);
    SinglePage(1);
    SinglePage(twin);
    RunIn(1, 1, twin);
    SharedBit(v.dirty[..], 1);
    v.Release(twin);
    v.Allocate(twin, false);
  }

  lemma TwinsPointers(n: nat, v: View)
    requires n > 0 && v == Twins(n).(free := {}, ptrFree := {})
    ensures var twin := 1 + n * WORDSZ;
            v.Pointers() == {1, twin} && v.InUse(1) && Covers(v.size, 1, 1) && v.size[twin] == 1
  {
    var twin := 1 + n * WORDSZ;
    assert Covers(v.size, 1, 1) && Covers(v.size, twin, twin);
    assert v.PtrPage(1, 1) && v.PtrPage(twin, twin);
  }
}
