/** The heap as a set of pages divided into blocks, and what splitting, merging, using and freeing blocks
 *  does to it.  Sizes and addresses are counted in heap blocks.
 */
module HeapBlocks {
  import opened Common
  import opened HashChains
  import opened FreeLists

  /****** bins ******/

  const UNIQUE_THRESHOLD: nat := 32
  const HUGE_THRESHOLD: nat := 256
  const FL_COMPRESSION: nat := 8
  const N_HBLK_FLS: nat := (HUGE_THRESHOLD - UNIQUE_THRESHOLD) / FL_COMPRESSION + UNIQUE_THRESHOLD

  // GC_hblk_fl_from_blocks
  function Bin(blocks: nat): nat {
    if blocks <= UNIQUE_THRESHOLD then blocks
    else if blocks >= HUGE_THRESHOLD then N_HBLK_FLS
    else (blocks - UNIQUE_THRESHOLD) / FL_COMPRESSION + UNIQUE_THRESHOLD
  }

  // Larger blocks are on later lists, and lists below the threshold hold blocks of one size only.
  lemma BinMonotone(a: nat, b: nat)
    requires a <= b
    ensures Bin(a) <= Bin(b) <= N_HBLK_FLS
    ensures Bin(b) < UNIQUE_THRESHOLD ==> b == Bin(b)
  {
  }

  // Which sizes are on list n: fewer than 32 blocks have a list for each size, 256 or more the last one, and in between
  // there are eight sizes to a list.
  lemma BinSizes(b: nat, n: nat)
    requires n <= N_HBLK_FLS
    ensures N_HBLK_FLS == 60
    ensures Bin(b) == n <==>
            if n < 32 then b == n else if n < 60 then 8 * (n - 32) <= b - 32 < 8 * (n - 32) + 8 else b >= 256
  {
  }

  /****** blocks and pages ******/

  // The pages a, ..., a + n - 1.
  function Run(a: nat, n: nat): set<nat> {
    if n == 0 then {} else Run(a, n - 1) + {a + n - 1}
  }

  lemma {:induction false} RunIn(a: nat, n: nat, p: nat)
    ensures p in Run(a, n) <==> a <= p < a + n
  {
    if n > 0 { RunIn(a, n - 1, p); }
  }

  lemma {:induction false} RunSize(a: nat, n: nat)
    ensures |Run(a, n)| == n
  {
    if n > 0 {
      RunSize(a, n - 1);
      RunIn(a, n - 1, a + n - 1);
    }
  }

  ghost predicate Covers(size: map<Addr, nat>, a: Addr, p: nat) {
    a in size && a <= p < a + size[a]
  }

  // Headers stand at disjoint blocks that together are exactly the heap.
  ghost predicate Tiled(size: map<Addr, nat>, pages: set<nat>) {
    && (forall a <- size :: a > 0 && size[a] > 0)
    && (forall a, p :: Covers(size, a, p) ==> p in pages)
    && (forall a, b :: a in size && b in size && a < b ==> a + size[a] <= b)
    && (forall p <- pages :: exists a :: Covers(size, a, p))
  }

  lemma CoversOnce(size: map<Addr, nat>, pages: set<nat>, a: Addr, b: Addr, p: nat)
    requires Tiled(size, pages) && Covers(size, a, p) && Covers(size, b, p)
    ensures a == b
  {
  }

  // Page p lies in a free block.
  ghost predicate InFree(size: map<Addr, nat>, free: set<Addr>, p: nat) {
    exists a :: a in free && Covers(size, a, p)
  }

  ghost function FreePages(size: map<Addr, nat>, free: set<Addr>, pages: set<nat>): set<nat> {
    set p | p in pages && InFree(size, free, p)
  }

  // Pages of blocks in use.
  ghost function UsedPages(size: map<Addr, nat>, free: set<Addr>, pages: set<nat>): set<nat> {
    set p | p in pages && exists a :: a in size && a !in free && Covers(size, a, p)
  }

  // Nothing is lost (the check of checksums.c:160-175).
  lemma UsedPlusFree(size: map<Addr, nat>, free: set<Addr>, pages: set<nat>)
    requires Tiled(size, pages)
    ensures |UsedPages(size, free, pages)| + |FreePages(size, free, pages)| == |pages|
  {
    var u, f := UsedPages(size, free, pages), FreePages(size, free, pages);
    forall p | p in pages ensures p in u <==> p !in f {
      var a :| Covers(size, a, p);
      if p in f {
        var b :| b in free && Covers(size, b, p);
        if p in u {
          var c :| c in size && c !in free && Covers(size, c, p);
          CoversOnce(size, pages, b, c, p);
        }
      }
    }
    assert pages == u + f && u !! f;
  }

  ghost predicate NoAdjacent(size: map<Addr, nat>, free: set<Addr>) {
    forall a, b :: a in free && a in size && b in free ==> a + size[a] != b
  }

  // Two blocks together are no larger than the heap.
  lemma TwoFit(size: map<Addr, nat>, pages: set<nat>, a: Addr, b: Addr)
    requires Tiled(size, pages) && a in size && b in size && a < b
    ensures size[a] + size[b] <= |pages|
  {
    var r, s := Run(a, size[a]), Run(b, size[b]);
    RunSize(a, size[a]);
    RunSize(b, size[b]);
    forall p | p in r ensures p in pages && p !in s {
      RunIn(a, size[a], p);
      RunIn(b, size[b], p);
      assert Covers(size, a, p);
    }
    forall p | p in s ensures p in pages {
      RunIn(b, size[b], p);
      assert Covers(size, b, p);
    }
    hide *;
    Subset(r + s, pages);
    assert |r + s| == |r| + |s|;
  }

  lemma {:induction false} Subset(s: set<nat>, t: set<nat>)
    requires s <= t
    ensures |s| <= |t|
  {
    assert t == s + (t - s);
  }

  // No free block begins where block h ends, or ends where it begins.
  ghost predicate RightClear(size: map<Addr, nat>, free: set<Addr>, h: Addr) {
    h in size && forall b <- free :: h + size[h] != b
  }

  ghost predicate LeftClear(size: map<Addr, nat>, free: set<Addr>, h: Addr) {
    forall a <- free :: a in size ==> a + size[a] != h
  }

  lemma ClearBothSides(size: map<Addr, nat>, free: set<Addr>, h: Addr)
    requires NoAdjacent(size, free - {h}) && RightClear(size, free, h) && LeftClear(size, free, h)
    ensures NoAdjacent(size, free)
  {
    forall a, b | a in free && a in size && b in free ensures a + size[a] != b {
      if a != h && b != h { assert a in free - {h} && b in free - {h}; }
    }
  }

  // Merging a block with its free right neighbour keeps its sides clear.
  lemma JoinClear(size: map<Addr, nat>, free: set<Addr>, pages: set<nat>, h: Addr)
    requires Tiled(size, pages) && h in size && h in free && h + size[h] in size && h + size[h] in free
    ensures var s2, f2 := Join(size, h), free - {h + size[h]};
            && (LeftClear(size, free, h) ==> LeftClear(s2, f2, h))
            && (NoAdjacent(size, free - {h}) ==> NoAdjacent(s2, f2 - {h}) && RightClear(s2, f2, h))
  {
    var n := h + size[h];
    var s2, f2 := Join(size, h), free - {n};
    assert forall a <- f2 :: a != h && a in size ==> a in s2 && s2[a] == size[a];
    if NoAdjacent(size, free - {h}) {
      assert n in free - {h};
      forall b | b in f2 ensures h + s2[h] != b {
        if b != h { assert b in free - {h}; }
      }
      forall a, b | a in f2 - {h} && a in s2 && b in f2 - {h} ensures a + s2[a] != b {
        assert a in free - {h} && b in free - {h};
      }
    }
  }

  // The same with the left neighbour a of block h.
  lemma JoinLeft(size: map<Addr, nat>, free: set<Addr>, pages: set<nat>, a: Addr, h: Addr)
    requires Tiled(size, pages) && h in size && h in free && a in size && a in free && a + size[a] == h
    requires NoAdjacent(size, free - {h}) && RightClear(size, free, h)
    ensures NoAdjacent(Join(size, a), free - {h})
  {
    var s2, f2 := Join(size, a), free - {h};
    assert forall x <- f2 :: x != a && x in size ==> x in s2 && s2[x] == size[x];
    forall x, y | x in f2 && x in s2 && y in f2 ensures x + s2[x] != y {
      if x == a { assert y in free && x + s2[x] == h + size[h]; }
    }
  }

  // Dividing a free block, with its second part not free yet.
  lemma DivideClear(size: map<Addr, nat>, free: set<Addr>, pages: set<nat>, h: Addr, k: nat)
    requires Tiled(size, pages) && free <= size.Keys && NoAdjacent(size, free) && h in free && 0 < k < size[h]
    ensures NoAdjacent(Divide(size, h, k), free) && RightClear(Divide(size, h, k), free, h + k)
  {
    TiledDivide(size, pages, h, k);
  }

  // The part x + k of block x is freed.
  lemma RestClear(size: map<Addr, nat>, free: set<Addr>, pages: set<nat>, x: Addr, k: nat)
    requires Tiled(size, pages) && free <= size.Keys && x in size && x !in free && 0 < k < size[x]
    requires NoAdjacent(size, free) && RightClear(size, free, x)
    ensures NoAdjacent(Divide(size, x, k), free + {x + k})
  {
    TiledDivide(size, pages, x, k);
    var s2, r := Divide(size, x, k), x + k;
    forall a, b | a in free + {r} && a in s2 && b in free + {r} ensures a + s2[a] != b {
      if a != r { assert a in free && s2[a] == size[a]; }
      if b == r && a != r { assert Tiled(s2, pages); }
    }
  }

  // A block divided in two.
  function Divide(size: map<Addr, nat>, h: Addr, k: nat): map<Addr, nat>
    requires h in size && k < size[h]
  {
    size[h := k][h + k := size[h] - k]
  }

  lemma DivideCovers(size: map<Addr, nat>, h: Addr, k: nat, a: Addr, p: nat)
    requires h in size && k < size[h] && h + k !in size
    ensures Covers(Divide(size, h, k), h, p) || Covers(Divide(size, h, k), h + k, p) <==> Covers(size, h, p)
    ensures a != h && a != h + k ==> (Covers(Divide(size, h, k), a, p) <==> Covers(size, a, p))
  {
  }

  lemma DivideNew(size: map<Addr, nat>, pages: set<nat>, h: Addr, k: nat)
    requires Tiled(size, pages) && h in size && 0 < k < size[h]
    ensures h + k !in size
  {
  }

  lemma DivideApart(size: map<Addr, nat>, pages: set<nat>, h: Addr, k: nat, a: Addr, b: Addr)
    requires Tiled(size, pages) && h in size && 0 < k < size[h] && a in Divide(size, h, k)
    ensures a > 0 && Divide(size, h, k)[a] > 0
    ensures b in Divide(size, h, k) && a < b ==> a + Divide(size, h, k)[a] <= b
  {
  }

  lemma DividePages(size: map<Addr, nat>, pages: set<nat>, h: Addr, k: nat, p: nat)
    requires Tiled(size, pages) && h in size && 0 < k < size[h]
    ensures p in pages ==> exists a :: Covers(Divide(size, h, k), a, p)
    ensures forall a :: Covers(Divide(size, h, k), a, p) ==> p in pages
  {
    DivideNew(size, pages, h, k);
    if p in pages {
      var a :| Covers(size, a, p);
      DivideCovers(size, h, k, a, p);
    }
    forall a | Covers(Divide(size, h, k), a, p) ensures p in pages {
      DivideCovers(size, h, k, a, p);
      hide Divide;
      assert Covers(size, h, p) || Covers(size, a, p);
    }
  }

  lemma TiledDivide(size: map<Addr, nat>, pages: set<nat>, h: Addr, k: nat)
    requires Tiled(size, pages) && h in size && 0 < k < size[h]
    ensures h + k !in size && Tiled(Divide(size, h, k), pages)
  {
    hide *;
    DivideNew(size, pages, h, k);
    var s2 := Divide(size, h, k);
    forall a, b | a in s2
      ensures a > 0 && s2[a] > 0 && (b in s2 && a < b ==> a + s2[a] <= b)
    {
      DivideApart(size, pages, h, k, a, b);
    }
    forall p ensures p in pages ==> exists a :: Covers(s2, a, p) { DividePages(size, pages, h, k, p); }
    forall a, p | Covers(s2, a, p) ensures p in pages { DividePages(size, pages, h, k, p); }
    IsTiled(s2, pages);
  }

  lemma InFreeDivide(size: map<Addr, nat>, free: set<Addr>, h: Addr, k: nat, p: nat)
    requires h in size && k < size[h] && h + k !in size && h in free && free <= size.Keys
    ensures InFree(Divide(size, h, k), free + {h + k}, p) <==> InFree(size, free, p)
  {
    var s2, f2 := Divide(size, h, k), free + {h + k};
    DivideCovers(size, h, k, h, p);
    hide Covers, Divide;
    if InFree(size, free, p) {
      var a :| a in free && Covers(size, a, p);
      DivideCovers(size, h, k, a, p);
      assert a in f2 && h in f2 && h + k in f2;
    }
    if InFree(s2, f2, p) {
      var a :| a in f2 && Covers(s2, a, p);
      DivideCovers(size, h, k, a, p);
      assert a == h + k || a in free;
    }
  }

  lemma FreeDivide(size: map<Addr, nat>, free: set<Addr>, pages: set<nat>, h: Addr, k: nat)
    requires Tiled(size, pages) && h in size && 0 < k < size[h] && h in free && free <= size.Keys
    ensures FreePages(Divide(size, h, k), free + {h + k}, pages) == FreePages(size, free, pages)
  {
    hide Tiled, InFree, Divide;
    DivideNew(size, pages, h, k);
    forall p ensures InFree(Divide(size, h, k), free + {h + k}, p) <==> InFree(size, free, p) {
      InFreeDivide(size, free, h, k, p);
    }
  }

  // Two neighbours made one.
  function Join(size: map<Addr, nat>, a: Addr): map<Addr, nat>
    requires a in size && a + size[a] in size
  {
    (size - {a + size[a]})[a := size[a] + size[a + size[a]]]
  }

  lemma JoinCovers(size: map<Addr, nat>, a: Addr, x: Addr, p: nat)
    requires a in size && a + size[a] in size && size[a] > 0
    ensures Covers(Join(size, a), a, p) <==> Covers(size, a, p) || Covers(size, a + size[a], p)
    ensures x != a && x != a + size[a] ==> (Covers(Join(size, a), x, p) <==> Covers(size, x, p))
    ensures !Covers(Join(size, a), a + size[a], p)
  {
  }

  lemma JoinApart(size: map<Addr, nat>, pages: set<nat>, a: Addr, x: Addr, y: Addr)
    requires Tiled(size, pages) && a in size && a + size[a] in size && x in Join(size, a)
    ensures x > 0 && Join(size, a)[x] > 0 && (y in Join(size, a) && x < y ==> x + Join(size, a)[x] <= y)
  {
  }

  lemma JoinPages(size: map<Addr, nat>, pages: set<nat>, a: Addr, p: nat)
    requires Tiled(size, pages) && a in size && a + size[a] in size
    ensures p in pages ==> exists x :: Covers(Join(size, a), x, p)
    ensures forall x :: Covers(Join(size, a), x, p) ==> p in pages
  {
    if p in pages {
      var x :| Covers(size, x, p);
      JoinCovers(size, a, x, p);
    }
    forall x | Covers(Join(size, a), x, p) ensures p in pages {
      JoinCovers(size, a, x, p);
      hide Join;
      assert Covers(size, a, p) || Covers(size, a + size[a], p) || Covers(size, x, p);
    }
  }

  lemma TiledJoin(size: map<Addr, nat>, pages: set<nat>, a: Addr)
    requires Tiled(size, pages) && a in size && a + size[a] in size
    ensures Tiled(Join(size, a), pages)
  {
    hide *;
    var s2 := Join(size, a);
    forall x, y | x in s2
      ensures x > 0 && s2[x] > 0 && (y in s2 && x < y ==> x + s2[x] <= y)
    {
      JoinApart(size, pages, a, x, y);
    }
    forall p ensures p in pages ==> exists x :: Covers(s2, x, p) { JoinPages(size, pages, a, p); }
    forall x, p | Covers(s2, x, p) ensures p in pages { JoinPages(size, pages, a, p); }
    IsTiled(s2, pages);
  }

  lemma InFreeJoin(size: map<Addr, nat>, free: set<Addr>, a: Addr, p: nat)
    requires a in size && a + size[a] in size && size[a] > 0 && a in free && a + size[a] in free
    ensures InFree(Join(size, a), free - {a + size[a]}, p) <==> InFree(size, free, p)
  {
    var s2, f2 := Join(size, a), free - {a + size[a]};
    JoinCovers(size, a, a, p);
    hide Covers, Join;
    if InFree(size, free, p) {
      var x :| x in free && Covers(size, x, p);
      JoinCovers(size, a, x, p);
      assert a in f2 && (x in f2 || x == a + size[a]);
    }
    if InFree(s2, f2, p) {
      var x :| x in f2 && Covers(s2, x, p);
      JoinCovers(size, a, x, p);
      assert x in free;
    }
  }

  lemma FreeJoin(size: map<Addr, nat>, free: set<Addr>, pages: set<nat>, a: Addr)
    requires Tiled(size, pages) && a in size && a + size[a] in size && a in free && a + size[a] in free
    ensures FreePages(Join(size, a), free - {a + size[a]}, pages) == FreePages(size, free, pages)
  {
    hide InFree, Join;
    forall p ensures InFree(Join(size, a), free - {a + size[a]}, p) <==> InFree(size, free, p) {
      InFreeJoin(size, free, a, p);
    }
  }

  // A block changes from free to used or back.
  lemma FreeChange(size: map<Addr, nat>, free: set<Addr>, pages: set<nat>, a: Addr)
    requires Tiled(size, pages) && a in size && a !in free
    ensures FreePages(size, free + {a}, pages) == FreePages(size, free, pages) + Run(a, size[a])
    ensures FreePages(size, free, pages) !! Run(a, size[a])
    ensures |FreePages(size, free + {a}, pages)| == |FreePages(size, free, pages)| + size[a]
  {
    RunSize(a, size[a]);
    hide *;
    var f, f2, r := FreePages(size, free, pages), FreePages(size, free + {a}, pages), Run(a, size[a]);
    forall p ensures (p in f2 <==> p in f || p in r) && !(p in f && p in r) {
      FreeChangeAt(size, free, pages, a, p);
    }
    assert f2 == f + r && f !! r;
  }

  lemma FreeChangeAt(size: map<Addr, nat>, free: set<Addr>, pages: set<nat>, a: Addr, p: nat)
    requires Tiled(size, pages) && a in size && a !in free
    ensures p in FreePages(size, free + {a}, pages) <==> p in FreePages(size, free, pages) || p in Run(a, size[a])
    ensures !(p in FreePages(size, free, pages) && p in Run(a, size[a]))
  {
    RunIn(a, size[a], p);
    hide Run;
    if InFree(size, free + {a}, p) {
      var b :| b in free + {a} && Covers(size, b, p);
      assert b != a ==> b in free;
    }
    if p in Run(a, size[a]) { assert a in free + {a} && Covers(size, a, p); }
    if InFree(size, free, p) {
      var b :| b in free && Covers(size, b, p);
      assert b in free + {a};
    }
  }

  // New pages form one new block.
  lemma TiledExtend(size: map<Addr, nat>, pages: set<nat>, a: Addr, n: nat)
    requires Tiled(size, pages) && a > 0 && n > 0 && Run(a, n) !! pages
    ensures a !in size && Tiled(size[a := n], pages + Run(a, n))
    ensures |pages + Run(a, n)| == |pages| + n
  {
    hide *;
    RunSize(a, n);
    ExtendNew(size, pages, a, n);
    var s2, r := size[a := n], Run(a, n);
    forall b, c | b in s2 ensures b > 0 && s2[b] > 0 && (c in s2 && b < c ==> b + s2[b] <= c) {
      ExtendOrder(size, pages, a, n, b, c);
    }
    forall p | p in pages + r ensures exists b :: Covers(s2, b, p) {
      ExtendCovered(size, pages, a, n, s2, p);
    }
    forall b, p | Covers(s2, b, p) ensures p in pages + r {
      ExtendCovers(size, pages, a, n, b, p);
    }
    IsTiled(s2, pages + r);
  }

  lemma ExtendNew(size: map<Addr, nat>, pages: set<nat>, a: Addr, n: nat)
    requires Tiled(size, pages) && n > 0 && Run(a, n) !! pages
    ensures a !in size
  {
    if a in size { ExtendApart(size, pages, a, n, a); }
  }

  lemma ExtendOrder(size: map<Addr, nat>, pages: set<nat>, a: Addr, n: nat, b: Addr, c: Addr)
    requires Tiled(size, pages) && a > 0 && n > 0 && Run(a, n) !! pages && b in size[a := n]
    ensures b > 0 && size[a := n][b] > 0 && (c in size[a := n] && b < c ==> b + size[a := n][b] <= c)
  {
    hide Run;
    if b != a { ExtendApart(size, pages, a, n, b); }
    if c in size && c != a { ExtendApart(size, pages, a, n, c); }
  }

  lemma ExtendCovers(size: map<Addr, nat>, pages: set<nat>, a: Addr, n: nat, b: Addr, p: nat)
    requires Tiled(size, pages) && Covers(size[a := n], b, p)
    ensures p in pages + Run(a, n)
  {
    RunIn(a, n, p);
    hide Run;
    if b != a { assert Covers(size, b, p); }
  }

  lemma IsTiled(size: map<Addr, nat>, pages: set<nat>)
    requires forall a <- size :: a > 0 && size[a] > 0
    requires forall a, p :: Covers(size, a, p) ==> p in pages
    requires forall a, b :: a in size && b in size && a < b ==> a + size[a] <= b
    requires forall p <- pages :: exists a :: Covers(size, a, p)
    ensures Tiled(size, pages)
  {
  }

  lemma ExtendCovered(size: map<Addr, nat>, pages: set<nat>, a: Addr, n: nat, s2: map<Addr, nat>, p: nat)
    requires Tiled(size, pages) && a !in size && p in pages + Run(a, n) && s2 == size[a := n]
    ensures exists b :: Covers(s2, b, p)
  {
    if p in pages {
      var b :| Covers(size, b, p);
      assert Covers(s2, b, p);
    } else {
      RunIn(a, n, p);
      assert Covers(s2, a, p);
    }
  }

  lemma ExtendApart(size: map<Addr, nat>, pages: set<nat>, a: Addr, n: nat, b: Addr)
    requires Tiled(size, pages) && n > 0 && Run(a, n) !! pages && b in size
    ensures b != a && (b < a ==> b + size[b] <= a) && (a < b ==> a + n <= b)
  {
    RunIn(a, n, a);
    RunIn(a, n, b);
    hide Run;
    assert Covers(size, b, b);
    assert b <= a < b + size[b] ==> Covers(size, b, a);
  }

  lemma FreeExtend(size: map<Addr, nat>, free: set<Addr>, pages: set<nat>, a: Addr, n: nat)
    requires Tiled(size, pages) && free <= size.Keys && a !in size
    ensures FreePages(size[a := n], free, pages + Run(a, n)) == FreePages(size, free, pages)
  {
    hide Run;
    var s2, q := size[a := n], pages + Run(a, n);
    forall p ensures p in q && InFree(s2, free, p) <==> p in pages && InFree(size, free, p) {
      if p in q && InFree(s2, free, p) {
        var b :| b in free && Covers(s2, b, p);
        assert Covers(size, b, p);
      }
      if p in pages && InFree(size, free, p) {
        var b :| b in free && Covers(size, b, p);
        assert Covers(s2, b, p);
      }
    }
  }

  /****** free lists and their counts ******/

  function Sz(size: map<Addr, nat>, a: Addr): nat {
    if a in size then size[a] else 0
  }

  function SumSz(size: map<Addr, nat>, s: seq<Addr>): nat {
    if s == [] then 0 else Sz(size, s[0]) + SumSz(size, s[1..])
  }

  lemma {:induction false} SumWithout(size: map<Addr, nat>, s: seq<Addr>, j: nat)
    requires j < |s|
    ensures SumSz(size, Without(s, j)) == SumSz(size, s) - Sz(size, s[j])
  {
    if j == 0 {
      assert Without(s, 0) == s[1..];
    } else {
      SumWithout(size, s[1..], j - 1);
      assert Without(s, j)[1..] == Without(s[1..], j - 1);
    }
  }

  lemma {:induction false} SumReplace(size: map<Addr, nat>, s: seq<Addr>, j: nat, p: Addr)
    requires j < |s|
    ensures SumSz(size, s[j := p]) == SumSz(size, s) - Sz(size, s[j]) + Sz(size, p)
  {
    if j == 0 {
      assert s[0 := p][1..] == s[1..];
    } else {
      SumReplace(size, s[1..], j - 1, p);
      assert s[j := p][1..] == s[1..][j - 1 := p];
    }
  }

  lemma {:induction false} SumFrame(size: map<Addr, nat>, size2: map<Addr, nat>, s: seq<Addr>)
    requires forall a <- s :: Sz(size2, a) == Sz(size, a)
    ensures SumSz(size2, s) == SumSz(size, s)
  {
    if s != [] {
      SumFrame(size, size2, s[1..]);
    }
  }

  // The list a block is on: normally the one for its size.
  function ListOf(size: map<Addr, nat>, odd: map<Addr, nat>, a: Addr): nat {
    if a in odd then odd[a] else Bin(Sz(size, a))
  }

  ghost predicate OnList(size: map<Addr, nat>, odd: map<Addr, nat>, on: set<Addr>, s: seq<Addr>, i: nat) {
    forall a <- s :: a in on && ListOf(size, odd, a) == i
  }

  // The blocks in `on` are on their lists, and only they.
  ghost predicate Binned(size: map<Addr, nat>, odd: map<Addr, nat>, on: set<Addr>, lists: seq<seq<Addr>>) {
    && |lists| == N_HBLK_FLS + 1 && on <= size.Keys
    && (forall i :: 0 <= i < |lists| ==> OnList(size, odd, on, lists[i], i))
    && (forall a <- on :: ListOf(size, odd, a) < |lists| && a in lists[ListOf(size, odd, a)])
  }

  // GC_free_bytes
  ghost predicate Counted(size: map<Addr, nat>, lists: seq<seq<Addr>>, freeBytes: seq<nat>) {
    |freeBytes| == |lists| && forall i :: 0 <= i < |lists| ==> freeBytes[i] == SumSz(size, lists[i])
  }

  // Sizes of blocks on no list may change.
  lemma BinnedFrame(size: map<Addr, nat>, size2: map<Addr, nat>, odd: map<Addr, nat>, on: set<Addr>,
                    lists: seq<seq<Addr>>, freeBytes: seq<nat>)
    requires Binned(size, odd, on, lists) && Counted(size, lists, freeBytes)
    requires forall a <- on :: a in size && a in size2 && size2[a] == size[a]
    ensures Binned(size2, odd, on, lists) && Counted(size2, lists, freeBytes)
  {
    hide Bin, SumSz;
    forall i | 0 <= i < |lists| ensures OnList(size2, odd, on, lists[i], i) && freeBytes[i] == SumSz(size2, lists[i]) {
      assert OnList(size, odd, on, lists[i], i);
      SumFrame(size, size2, lists[i]);
    }
  }

  lemma BinnedAdd(size: map<Addr, nat>, on: set<Addr>, odd: map<Addr, nat>, lists: seq<seq<Addr>>,
                  freeBytes: seq<nat>, h: Addr, i: nat)
    requires Binned(size, odd, on, lists) && Counted(size, lists, freeBytes)
    requires h in size && h !in on && h !in odd && i == Bin(size[h]) && i < |lists|
    ensures Binned(size, odd, on + {h}, lists[i := [h] + lists[i]])
    ensures Counted(size, lists[i := [h] + lists[i]], freeBytes[i := freeBytes[i] + size[h]])
    ensures forall k :: 0 <= k < |lists| ==> h !in lists[k]
  {
    hide Bin;
    var l2 := lists[i := [h] + lists[i]];
    forall k | 0 <= k < |lists| ensures OnList(size, odd, on + {h}, l2[k], k) && h !in lists[k] {
      assert OnList(size, odd, on, lists[k], k);
    }
    assert ([h] + lists[i])[1..] == lists[i];
  }

  lemma BinnedRemove(size: map<Addr, nat>, on: set<Addr>, odd: map<Addr, nat>, lists: seq<seq<Addr>>,
                     freeBytes: seq<nat>, i: nat, j: nat)
    requires Binned(size, odd, on, lists) && Counted(size, lists, freeBytes)
    requires i < |lists| && j < |lists[i]| && Distinct(lists[i])
    ensures var h := lists[i][j];
            && h in on && h in size && freeBytes[i] >= size[h] && ListOf(size, odd, h) == i
            && Binned(size, odd, on - {h}, lists[i := Without(lists[i], j)])
            && Counted(size, lists[i := Without(lists[i], j)], freeBytes[i := freeBytes[i] - size[h]])
  {
    hide Bin, SumSz, Without;
    var h := lists[i][j];
    var l2 := lists[i := Without(lists[i], j)];
    assert OnList(size, odd, on, lists[i], i);
    assert h in lists[i] && h in on;
    SumWithout(size, lists[i], j);
    forall q ensures q in Without(lists[i], j) <==> q in lists[i] && q != h { WithoutIn(lists[i], j, q); }
    forall k | 0 <= k < |l2| ensures OnList(size, odd, on - {h}, l2[k], k) {
      assert OnList(size, odd, on, lists[k], k);
    }
  }

  // A block that is on a list can be found there.
  lemma ListIndex(size: map<Addr, nat>, on: set<Addr>, odd: map<Addr, nat>, lists: seq<seq<Addr>>, h: Addr)
    returns (j: nat)
    requires Binned(size, odd, on, lists) && h in on
    ensures ListOf(size, odd, h) < |lists| && j < |lists[ListOf(size, odd, h)]| && lists[ListOf(size, odd, h)][j] == h
  {
    j :| 0 <= j < |lists[ListOf(size, odd, h)]| && lists[ListOf(size, odd, h)][j] == h;
  }

  function Put(s: seq<Addr>, j: nat, p: Addr): seq<Addr>
    requires j < |s|
  {
    s[j := p]
  }

  // Block p takes over part of block h and its place on list i; for the moment it may be the wrong list.
  lemma BinnedReplace(size: map<Addr, nat>, size2: map<Addr, nat>, on: set<Addr>, lists: seq<seq<Addr>>,
                      freeBytes: seq<nat>, i: nat, j: nat, p: Addr)
    requires Binned(size, map[], on, lists) && Counted(size, lists, freeBytes)
    requires i < |lists| && j < |lists[i]| && Distinct(lists[i]) && lists[i][j] in size
    requires p !in size && p in size2 && size2[p] <= size[lists[i][j]]
    requires forall a <- on :: a != lists[i][j] ==> a in size && a in size2 && size2[a] == size[a]
    ensures forall k :: 0 <= k < |lists| ==> p !in lists[k]
    ensures var h := lists[i][j];
            && freeBytes[i] >= size[h] - size2[p]
            && Binned(size2, map[p := i], on - {h} + {p}, lists[i := Put(lists[i], j, p)])
            && Counted(size2, lists[i := Put(lists[i], j, p)], freeBytes[i := freeBytes[i] - (size[h] - size2[p])])
  {
    var h := lists[i][j];
    var l2 := lists[i := Put(lists[i], j, p)];
    assert OnList(size, map[], on, lists[i], i);
    assert h in lists[i] && h in on;
    SumReplace(size, lists[i], j, p);
    SumWithout(size, lists[i], j);
    SumReplace(size2, lists[i], j, p);
    hide SumSz, Bin;
    forall k | 0 <= k < |lists| ensures p !in lists[k] && (k != i ==> h !in lists[k]) {
      assert OnList(size, map[], on, lists[k], k);
    }
    forall q ensures q in l2[i] <==> q == p || (q in lists[i] && q != h) {
      if q in l2[i] && q != p {
        var x :| 0 <= x < |l2[i]| && l2[i][x] == q;
        assert lists[i][x] == q;
      }
      if q in lists[i] && q != h {
        var x :| 0 <= x < |lists[i]| && lists[i][x] == q;
        assert l2[i][x] == q;
      }
      assert l2[i][j] == p;
    }
    forall k | 0 <= k < |l2| ensures OnList(size2, map[p := i], on - {h} + {p}, l2[k], k) {
      assert OnList(size, map[], on, lists[k], k);
    }
    SumRest(size, size2, lists[i], j, p);
    forall k | 0 <= k < |l2| && k != i ensures SumSz(size2, l2[k]) == SumSz(size, lists[k]) {
      assert OnList(size, map[], on, lists[k], k);
      SumFrame(size, size2, lists[k]);
    }
  }

  lemma SumRest(size: map<Addr, nat>, size2: map<Addr, nat>, s: seq<Addr>, j: nat, p: Addr)
    requires j < |s| && Distinct(s)
    requires forall a <- s :: a != s[j] ==> Sz(size2, a) == Sz(size, a)
    ensures SumSz(size2, s[j := p]) == SumSz(size, s) - Sz(size, s[j]) + Sz(size2, p)
  {
    SumWithout(size, s, j);
    SumWithout(size2, s[j := p], j);
    assert Without(s[j := p], j) == Without(s, j);
    forall a | a in Without(s, j) ensures Sz(size2, a) == Sz(size, a) { WithoutIn(s, j, a); }
    SumFrame(size, size2, Without(s, j));
  }

  // The odd block leaves: all is as usual again.
  lemma BinnedEven(size: map<Addr, nat>, on: set<Addr>, p: Addr, i: nat, lists: seq<seq<Addr>>)
    requires Binned(size, map[p := i], on, lists) && p !in on
    ensures Binned(size, map[], on, lists)
  {
    hide Bin;
    forall k | 0 <= k < |lists| ensures OnList(size, map[], on, lists[k], k) {
      assert OnList(size, map[p := i], on, lists[k], k);
    }
  }

  lemma BinnedOdd(size: map<Addr, nat>, on: set<Addr>, p: Addr, lists: seq<seq<Addr>>)
    requires Binned(size, map[], on, lists)
    ensures Binned(size, map[p := Bin(Sz(size, p))], on, lists)
  {
    hide Bin;
    forall k | 0 <= k < |lists| ensures OnList(size, map[p := Bin(Sz(size, p))], on, lists[k], k) {
      assert OnList(size, map[], on, lists[k], k);
    }
  }

  // A free block without free neighbours is all that a free heap part loses.
  lemma AloneClear(size: map<Addr, nat>, free: set<Addr>, pages: set<nat>, x: Addr)
    requires NoAdjacent(size, free) && x in free && x in size && Tiled(size, pages)
    ensures NoAdjacent(size, free - {x}) && RightClear(size, free - {x}, x)
  {
  }
}
