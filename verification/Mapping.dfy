/** Giving whole system pages of heap blocks back to the system, and getting them again (USE_MUNMAP in os_dep.c). */
module Mapping {
  import opened Common
  import opened Arithmetic
  import opened FreeLists
  import opened HeapBlocks

  /****** the whole pages of a block ******/

  function FirstPage(start: nat, page: nat): nat
    requires page > 0
  {
    (start + page - 1) / page
  }

  function EndPage(end: nat, page: nat): nat
    requires page > 0
  {
    end / page
  }

  // The pages that lie entirely in the bytes of a block.
  function Interior(start: nat, bytes: nat, page: nat): set<nat>
    requires page > 0
  {
    var first, end := FirstPage(start, page), EndPage(start + bytes, page);
    if first < end then Run(first, end - first) else {}
  }

  lemma Rounded(x: nat, k: nat, page: nat)
    requires page > 0
    ensures x <= k * page <==> FirstPage(x, page) <= k
    ensures (k + 1) * page <= x <==> k + 1 <= EndPage(x, page)
  {
    DivMod(x, page);
    DivMod(x + page - 1, page);
    var f, e := FirstPage(x, page), EndPage(x, page);
    if k < f { Multiples(k, f, page); }
    if f < k { Multiples(f, k, page); }
    if e < k + 1 { Multiples(e, k + 1, page); }
    if k + 1 < e { Multiples(k + 1, e, page); }
  }

  lemma InteriorMeans(start: nat, bytes: nat, page: nat, k: nat)
    requires page > 0
    ensures k in Interior(start, bytes, page) <==> start <= k * page && (k + 1) * page <= start + bytes
  {
    Rounded(start, k, page);
    Rounded(start + bytes, k, page);
    var first, end := FirstPage(start, page), EndPage(start + bytes, page);
    if first < end { RunIn(first, end - first, k); }
  }

  // Where two neighbours meet, the last whole page of the first and the first whole page of the second are at most
  // one page apart.
  lemma Meet(x: nat, page: nat)
    requires page > 0
    ensures EndPage(x, page) <= FirstPage(x, page) <= EndPage(x, page) + 1
  {
    DivMod(x, page);
    DivMod(x + page - 1, page);
    var f, e := FirstPage(x, page), EndPage(x, page);
    if f < e { Multiples(f, e, page); }
    if e + 1 < f { Multiples(e + 1, f, page); }
  }

  lemma RoundsUp(x: nat, y: nat, page: nat)
    requires page > 0 && x <= y
    ensures FirstPage(x, page) <= FirstPage(y, page) && EndPage(x, page) <= EndPage(y, page)
  {
    Rounded(x, FirstPage(y, page), page);
    DivMod(y + page - 1, page);
    DivMod(y, page);
    DivMod(x, page);
    var e, f := EndPage(x, page), EndPage(y, page);
    if f < e { Multiples(f, e, page); }
  }

  // The pages between the whole pages of two neighbours that are whole pages of both together.
  function GapPages(start: nat, bytes1: nat, bytes2: nat, page: nat): (nat, nat)
    requires page > 0
  {
    var mid := start + bytes1;
    var f1, e1 := FirstPage(start, page), EndPage(mid, page);
    var f2, e2 := FirstPage(mid, page), EndPage(mid + bytes2, page);
    (if f1 < e1 then e1 else f1, if f2 < e2 then f2 else e2)
  }

  // Two neighbours and the gap between them are the whole pages of both together.
  lemma GapExact(start: nat, bytes1: nat, bytes2: nat, page: nat)
    requires page > 0
    ensures var (g, h) := GapPages(start, bytes1, bytes2, page);
            var one, two := Interior(start, bytes1, page), Interior(start + bytes1, bytes2, page);
            var both := Interior(start, bytes1 + bytes2, page);
            && (FirstPage(start, page) < EndPage(start + bytes1 + bytes2, page) ==> g <= h)
            && (g < h ==> one + Run(g, h - g) + two == both && Run(g, h - g) !! one && Run(g, h - g) !! two)
            && (g >= h ==> one + two == both)
            && one !! two
  {
    hide FirstPage, EndPage, Run;
    var mid, end := start + bytes1, start + bytes1 + bytes2;
    var f1, e1, f2, e2 := FirstPage(start, page), EndPage(mid, page), FirstPage(mid, page), EndPage(end, page);
    Meet(mid, page);
    RoundsUp(start, mid, page);
    RoundsUp(mid, end, page);
    var (g, h) := GapPages(start, bytes1, bytes2, page);
    forall k: nat
      ensures k in Interior(start, bytes1, page) <==> f1 <= k < e1
      ensures k in Interior(mid, bytes2, page) <==> f2 <= k < e2
      ensures k in Interior(start, bytes1 + bytes2, page) <==> f1 <= k < e2
      ensures g < h ==> (k in Run(g, h - g) <==> g <= k < h)
    {
      if f1 < e1 { RunIn(f1, e1 - f1, k); }
      if f2 < e2 { RunIn(f2, e2 - f2, k); }
      if f1 < e2 { RunIn(f1, e2 - f1, k); }
      if g < h { RunIn(g, h - g, k); }
    }
  }

  /****** blocks ******/

  function Whole(size: map<Addr, nat>, a: Addr, page: nat): set<nat>
    requires page > 0 && a in size
  {
    Interior(a * HBLKSIZE, size[a] * HBLKSIZE, page)
  }

  lemma WholeApart(size: map<Addr, nat>, pages: set<nat>, a: Addr, b: Addr, page: nat)
    requires Tiled(size, pages) && a in size && b in size && a != b && page > 0
    ensures Whole(size, a, page) !! Whole(size, b, page)
  {
    forall k: nat ensures !(k in Whole(size, a, page) && k in Whole(size, b, page)) {
      InteriorMeans(a * HBLKSIZE, size[a] * HBLKSIZE, page, k);
      InteriorMeans(b * HBLKSIZE, size[b] * HBLKSIZE, page, k);
      Multiples(k, k + 1, page);
    }
  }

  ghost predicate AwayIn(size: map<Addr, nat>, away: set<Addr>, page: nat, a: Addr, k: nat)
    requires page > 0
  {
    a in away && a in size && k in Whole(size, a, page)
  }

  // The pages without memory are the whole pages of the blocks that say so.
  ghost predicate Backed(size: map<Addr, nat>, away: set<Addr>, page: nat, unmapped: set<nat>)
    requires page > 0
  {
    forall k: nat :: k in unmapped <==> exists a :: AwayIn(size, away, page, a, k)
  }

  // The state of unmapping: which free blocks have no memory.
  ghost predicate Marked(size: map<Addr, nat>, free: set<Addr>, away: set<Addr>, page: nat, unmapped: set<nat>) {
    page > 0 && away <= free && Backed(size, away, page, unmapped)
  }

  // The pages of one block go or come back.
  lemma BackedToggle(size: map<Addr, nat>, pages: set<nat>, away: set<Addr>, page: nat, unmapped: set<nat>, h: Addr)
    requires page > 0 && Tiled(size, pages) && Backed(size, away, page, unmapped) && h in size
    ensures if h in away
            then Whole(size, h, page) <= unmapped && Backed(size, away - {h}, page, unmapped - Whole(size, h, page))
            else Whole(size, h, page) !! unmapped && Backed(size, away + {h}, page, unmapped + Whole(size, h, page))
  {
    var w := Whole(size, h, page);
    forall k: nat, a | AwayIn(size, away, page, a, k) && a != h ensures k !in w {
      WholeApart(size, pages, a, h, page);
    }
    forall k | k in w && h in away ensures k in unmapped {
      assert AwayIn(size, away, page, h, k);
    }
    var away2 := if h in away then away - {h} else away + {h};
    var unmapped2 := if h in away then unmapped - w else unmapped + w;
    forall k: nat ensures k in unmapped2 <==> exists a :: AwayIn(size, away2, page, a, k) {
      if k in unmapped && k !in w {
        var a :| AwayIn(size, away, page, a, k);
        assert AwayIn(size, away2, page, a, k);
      }
      if k in w && h !in away { assert AwayIn(size, away2, page, h, k); }
      if a :| AwayIn(size, away2, page, a, k) {
        assert a != h ==> AwayIn(size, away, page, a, k);
      }
    }
  }

  // Two neighbours that have memory, or of which both have none, are made one.
  lemma BackedJoin(size: map<Addr, nat>, pages: set<nat>, away: set<Addr>, page: nat, unmapped: set<nat>, h: Addr,
                   gap: set<nat>)
    requires page > 0 && Tiled(size, pages) && Backed(size, away, page, unmapped)
    requires h in size && h + size[h] in size && size[h] > 0
    requires h in away <==> h + size[h] in away
    requires var n := h + size[h];
             var both := Whole(Join(size, h), h, page);
             if h in away then Whole(size, h, page) + gap + Whole(size, n, page) == both else gap == {}
    ensures Backed(Join(size, h), away - {h + size[h]}, page, unmapped + gap)
  {
    hide Interior, Tiled;
    var n, j := h + size[h], Join(size, h);
    var away2 := away - {n};
    forall k: nat ensures k in unmapped + gap <==> exists a :: AwayIn(j, away2, page, a, k) {
      if k in unmapped {
        var a :| AwayIn(size, away, page, a, k);
        assert AwayIn(j, away2, page, if a == n then h else a, k);
      }
      if k in gap { assert AwayIn(j, away2, page, h, k); }
      if a :| AwayIn(j, away2, page, a, k) {
        if a == h {
          assert k in gap || AwayIn(size, away, page, h, k) || AwayIn(size, away, page, n, k);
        } else {
          assert AwayIn(size, away, page, a, k);
        }
      }
    }
  }

  // Of the whole pages of two neighbours together, those without memory are the whole pages of either.
  lemma PagesOfBoth(size: map<Addr, nat>, pages: set<nat>, away: set<Addr>, page: nat, unmapped: set<nat>, h: Addr,
                    k: nat)
    requires page > 0 && Tiled(size, pages) && Backed(size, away, page, unmapped)
    requires h in size && h + size[h] in size && h in away && h + size[h] in away
    ensures k in unmapped && k in Whole(Join(size, h), h, page) <==>
            k in Whole(size, h, page) || k in Whole(size, h + size[h], page)
  {
    var n, j := h + size[h], Join(size, h);
    TiledJoin(size, pages, h);
    assert size[h] > 0;
    assert k in Whole(size, h, page) ==> AwayIn(size, away, page, h, k);
    assert k in Whole(size, n, page) ==> AwayIn(size, away, page, n, k);
    InteriorMeans(h * HBLKSIZE, size[h] * HBLKSIZE, page, k);
    InteriorMeans(n * HBLKSIZE, size[n] * HBLKSIZE, page, k);
    InteriorMeans(h * HBLKSIZE, j[h] * HBLKSIZE, page, k);
    if k in unmapped && k in Whole(j, h, page) {
      var a :| AwayIn(size, away, page, a, k);
      if a != h && a != n { WholeApart(j, pages, a, h, page); }
    }
  }

  // What GC_unmap_gap needs to know of two neighbours, and what it leads to.
  ghost predicate GapFacts(size: map<Addr, nat>, free: set<Addr>, away: set<Addr>, page: nat,
                           unmapped: set<nat>, h: Addr)
  {
    && page > 0 && h > 0 && h in size && h + size[h] in size
    && var next := h + size[h];
    var one := Interior(h * HBLKSIZE, size[h] * HBLKSIZE, page);
    var two := Interior(next * HBLKSIZE, size[next] * HBLKSIZE, page);
    var both := Interior(h * HBLKSIZE, size[h] * HBLKSIZE + size[next] * HBLKSIZE, page);
    && (h in away ==> unmapped * both == one + two)
    && forall gap: set<nat> :: (if h in away then one + gap + two == both else gap == {}) ==>
         Marked(Join(size, h), free - {next}, away - {next}, page, unmapped + gap)
  }

  lemma WholeJoin(size: map<Addr, nat>, pages: set<nat>, h: Addr, page: nat)
    requires Tiled(size, pages) && h in size && h + size[h] in size && page > 0
    ensures h > 0 && size[h] > 0 && h in Join(size, h)
    ensures var n: Addr := h + size[h];
            && Whole(size, h, page) == Interior(h * HBLKSIZE, size[h] * HBLKSIZE, page)
            && Whole(size, n, page) == Interior(n * HBLKSIZE, size[n] * HBLKSIZE, page)
            && Whole(Join(size, h), h, page) == Interior(h * HBLKSIZE, size[h] * HBLKSIZE + size[n] * HBLKSIZE, page)
  {
    hide Interior;
    var n: Addr := h + size[h];
    assert Join(size, h)[h] * HBLKSIZE == size[h] * HBLKSIZE + size[n] * HBLKSIZE;
  }

  lemma GapMarked(size: map<Addr, nat>, pages: set<nat>, free: set<Addr>, away: set<Addr>, page: nat,
                  unmapped: set<nat>, h: Addr)
    requires Tiled(size, pages) && Marked(size, free, away, page, unmapped)
    requires h in size && h + size[h] in size && (h in away <==> h + size[h] in away)
    ensures GapFacts(size, free, away, page, unmapped, h)
  {
    hide Tiled, Backed, Interior, Whole, Join;
    WholeJoin(size, pages, h, page);
    var j, next: Addr := Join(size, h), h + size[h];
    var both := Whole(j, h, page);
    if h in away {
      forall k: nat ensures k in unmapped && k in both <==> k in Whole(size, h, page) || k in Whole(size, next, page) {
        PagesOfBoth(size, pages, away, page, unmapped, h, k);
      }
    }
    forall gap: set<nat> | if h in away then Whole(size, h, page) + gap + Whole(size, next, page) == both else gap == {}
      ensures Marked(j, free - {next}, away - {next}, page, unmapped + gap)
    {
      BackedJoin(size, pages, away, page, unmapped, h, gap);
    }
  }

  // Blocks that have memory may change as they like, as long as those without keep their sizes and stay free.
  lemma MarkedFrame(size: map<Addr, nat>, free: set<Addr>, size2: map<Addr, nat>, free2: set<Addr>, away: set<Addr>,
                    page: nat,
                    unmapped: set<nat>)
    requires Marked(size, free, away, page, unmapped)
    requires forall a <- away :: a in free2 && a in size && a in size2 && size2[a] == size[a]
    ensures Marked(size2, free2, away, page, unmapped)
  {
    forall k: nat, a ensures AwayIn(size, away, page, a, k) <==> AwayIn(size2, away, page, a, k) {}
  }

  // No page with a byte of a block in use has been taken back.
  lemma UsedHasMemory(size: map<Addr, nat>, pages: set<nat>, free: set<Addr>, away: set<Addr>, page: nat,
                      unmapped: set<nat>,
                      a: Addr, k: nat)
    requires Tiled(size, pages) && Marked(size, free, away, page, unmapped) && a in size && a !in free
    requires k * page < (a + size[a]) * HBLKSIZE && a * HBLKSIZE < (k + 1) * page
    ensures k !in unmapped
  {
    hide Tiled;
    forall b | b in away && b in size ensures !AwayIn(size, away, page, b, k) {
      UsedApart(size, pages, free, away, page, unmapped, a, k, b);
    }
  }

  lemma UsedApart(size: map<Addr, nat>, pages: set<nat>, free: set<Addr>, away: set<Addr>, page: nat,
                  unmapped: set<nat>, a: Addr, k: nat, b: Addr)
    requires Tiled(size, pages) && Marked(size, free, away, page, unmapped) && a in size && a !in free
    requires k * page < (a + size[a]) * HBLKSIZE && a * HBLKSIZE < (k + 1) * page && b in away && b in size
    ensures !AwayIn(size, away, page, b, k)
  {
    hide Interior, Backed;
    InteriorMeans(b * HBLKSIZE, size[b] * HBLKSIZE, page, k);
    NotBoth(k * page, (k + 1) * page, a, size[a], b, size[b]);
  }

  // Bytes lo to hi - 1 cannot lie in one block and meet another.
  lemma NotBoth(lo: nat, hi: nat, a: Addr, n: nat, b: Addr, m: nat)
    requires lo < (a + n) * HBLKSIZE && a * HBLKSIZE < hi && (a + n <= b || b + m <= a)
    ensures !(b * HBLKSIZE <= lo && hi <= b * HBLKSIZE + m * HBLKSIZE)
  {
  }

  // The sizes of sets of pages, in bytes.
  lemma BytesChange(unmapped: set<nat>, pages: set<nat>, page: nat)
    ensures pages !! unmapped ==> page * |unmapped + pages| == page * |unmapped| + page * |pages|
    ensures pages <= unmapped ==> page * |unmapped - pages| == page * |unmapped| - page * |pages|
  {
    if pages !! unmapped { assert |unmapped + pages| == |unmapped| + |pages|; }
    if pages <= unmapped {
      assert unmapped == (unmapped - pages) + pages;
      assert |unmapped| == |unmapped - pages| + |pages|;
    }
  }

  // What the system has given and taken back.
  class Memory {
    const page: nat                // GC_page_size
    var unmappedBytes: int         // GC_unmapped_bytes
    var unmapped: set<nat>         // the pages that the system has taken back

    constructor (pageSize: nat)
      ensures page == pageSize && unmapped == {} && unmappedBytes == 0
    {
      page, unmapped, unmappedBytes := pageSize, {}, 0;
    }

    // GC_unmap_start: 0 if there is no whole page
    function UnmapStart(start: nat, bytes: nat): (r: nat)
      requires page > 0
    {
      var result := (start + page - 1) / page * page;
      if result + page > start + bytes then 0 else result
    }

    // GC_unmap_end
    function UnmapEnd(start: nat, bytes: nat): nat
      requires page > 0
    {
      (start + bytes) / page * page
    }

    lemma StartAndEnd(start: nat, bytes: nat)
      requires page > 0 && start > 0
      ensures var first, end := FirstPage(start, page), EndPage(start + bytes, page);
              && UnmapStart(start, bytes) == (if first < end then first * page else 0)
              && UnmapEnd(start, bytes) == end * page && first > 0
    {
      var first, end := FirstPage(start, page), EndPage(start + bytes, page);
      Rounded(start + bytes, first, page);
      Multiples(first, first + 1, page);
      DivMod(start + page - 1, page);
      Rounded(start, 0, page);
    }

    // Page boundaries, as addresses and as numbers.
    lemma Boundary(k: nat)
      requires page > 0
      ensures k * page % page == 0 && k * page / page == k
    {
      Quotient(k * page, page, k);
    }

    lemma Ordered(k: nat, l: nat)
      requires page > 0 && k <= l
      ensures k * page <= l * page && page * (l - k) == l * page - k * page
    {
      if k < l { Multiples(k, l, page); }
    }

    // The pages k, ..., l - 1 at these addresses go back to the system.
    method TakeBack(from: nat, to: nat, ghost k: nat, ghost l: nat)
      requires page > 0 && from == k * page && to == l * page && k <= l
      requires Run(k, l - k) !! unmapped && unmappedBytes == page * |unmapped|
      modifies `unmapped, `unmappedBytes
      ensures unmapped == old(unmapped) + Run(k, l - k) && unmappedBytes == page * |unmapped|
    {
      hide Run;
      RunSize(k, l - k);
      Boundary(k);
      Boundary(l);
      Ordered(k, l);
      var pages := Run(from / page, to / page - from / page);
      BytesChange(unmapped, pages, page);
      unmapped := unmapped + pages;
      unmappedBytes := unmappedBytes + (to - from);
    }

    // They come back.
    method GiveBack(from: nat, to: nat, ghost k: nat, ghost l: nat)
      requires page > 0 && from == k * page && to == l * page && k <= l
      requires Run(k, l - k) <= unmapped && unmappedBytes == page * |unmapped|
      modifies `unmapped, `unmappedBytes
      ensures unmapped == old(unmapped) - Run(k, l - k) && unmappedBytes == page * |unmapped|
    {
      hide Run;
      RunSize(k, l - k);
      Boundary(k);
      Boundary(l);
      Ordered(k, l);
      var pages := Run(from / page, to / page - from / page);
      BytesChange(unmapped, pages, page);
      unmapped := unmapped - pages;
      unmappedBytes := unmappedBytes - (to - from);
    }

    // GC_unmap
    method Unmap(start: nat, bytes: nat)
      requires page > 0 && start > 0 && Interior(start, bytes, page) !! unmapped && unmappedBytes == page * |unmapped|
      modifies `unmapped, `unmappedBytes
      ensures unmapped == old(unmapped) + Interior(start, bytes, page) && unmappedBytes == page * |unmapped|
    {
      StartAndEnd(start, bytes);
      hide UnmapStart, UnmapEnd, FirstPage, EndPage, Run;
      var from, to := UnmapStart(start, bytes), UnmapEnd(start, bytes);
      if from != 0 { TakeBack(from, to, FirstPage(start, page), EndPage(start + bytes, page)); }
    }

    // GC_remap
    method Remap(start: nat, bytes: nat)
      requires page > 0 && start > 0 && Interior(start, bytes, page) <= unmapped && unmappedBytes == page * |unmapped|
      modifies `unmapped, `unmappedBytes
      ensures unmapped == old(unmapped) - Interior(start, bytes, page) && unmappedBytes == page * |unmapped|
    {
      StartAndEnd(start, bytes);
      hide UnmapStart, UnmapEnd, FirstPage, EndPage, Run;
      var from, to := UnmapStart(start, bytes), UnmapEnd(start, bytes);
      if from != 0 { GiveBack(from, to, FirstPage(start, page), EndPage(start + bytes, page)); }
    }

    // Where GC_unmap_gap finds the gap between two unmapped blocks.
    lemma GapFound(start: nat, bytes1: nat, bytes2: nat, from: nat, to: nat, unmapped: set<nat>)
      requires page > 0 && start > 0
      requires from == if UnmapStart(start, bytes1) == 0 then UnmapStart(start, bytes1 + bytes2)
                       else UnmapEnd(start, bytes1)
      requires var second := UnmapStart(start + bytes1, bytes2);
               to == if second == 0 then UnmapEnd(start, bytes1 + bytes2) else second
      requires unmapped * Interior(start, bytes1 + bytes2, page) ==
               Interior(start, bytes1, page) + Interior(start + bytes1, bytes2, page)
      ensures var (k, l) := GapPages(start, bytes1, bytes2, page);
              var one, two := Interior(start, bytes1, page), Interior(start + bytes1, bytes2, page);
              var both := Interior(start, bytes1 + bytes2, page);
              if from == 0 then one + {} + two == both
              else
                k <= l && from == k * page && to == l * page && Run(k, l - k) !! unmapped
                && one + Run(k, l - k) + two == both
    {
      StartAndEnd(start, bytes1);
      StartAndEnd(start + bytes1, bytes2);
      StartAndEnd(start, bytes1 + bytes2);
      GapExact(start, bytes1, bytes2, page);
      Meet(start + bytes1, page);
      RoundsUp(start, start + bytes1, page);
      RoundsUp(start + bytes1, start + bytes1 + bytes2, page);
      var mid, end := start + bytes1, start + bytes1 + bytes2;
      var f1, e1, f2, e2 := FirstPage(start, page), EndPage(mid, page), FirstPage(mid, page), EndPage(end, page);
      var (k, l) := GapPages(start, bytes1, bytes2, page);
      assert end == start + (bytes1 + bytes2);
      if f1 < e1 { NotZero(e1); }
      if f1 < e2 { NotZero(f1); }
      hide UnmapStart, UnmapEnd, FirstPage, EndPage, Interior;
      assert k == l ==> Run(k, l - k) == {};
    }

    lemma NotZero(k: nat)
      requires page > 0 && k > 0
      ensures k * page > 0
    {
      Multiples(0, k, page);
    }

    // GC_unmap_gap: afterwards two unmapped neighbours are as one unmapped block.
    method UnmapGap(start1: nat, bytes1: nat, start2: nat, bytes2: nat) returns (ghost gap: set<nat>)
      requires page > 0 && start1 > 0 && start1 + bytes1 == start2 && unmappedBytes == page * |unmapped|
      requires unmapped * Interior(start1, bytes1 + bytes2, page) ==
               Interior(start1, bytes1, page) + Interior(start2, bytes2, page)
      modifies `unmapped, `unmappedBytes
      ensures unmapped == old(unmapped) + gap && unmappedBytes == page * |unmapped|
      ensures Interior(start1, bytes1, page) + gap + Interior(start2, bytes2, page) ==
              Interior(start1, bytes1 + bytes2, page)
    {
      hide *;
      var start1Addr, end1Addr := UnmapStart(start1, bytes1), UnmapEnd(start1, bytes1);
      var start2Addr := UnmapStart(start2, bytes2);
      var from, to := end1Addr, start2Addr;
      gap := {};
      if start1Addr == 0 { from := UnmapStart(start1, bytes1 + bytes2); }
      if start2Addr == 0 { to := UnmapEnd(start1, bytes1 + bytes2); }
      GapFound(start1, bytes1, bytes2, from, to, unmapped);
      if from != 0 {
        ghost var (k, l) := GapPages(start1, bytes1, bytes2, page);
        TakeBack(from, to, k, l);
        gap := Run(k, l - k);
      }
    }
  }
}
