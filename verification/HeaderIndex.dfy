/** The header index (headers.c, gc_hdrs.h): a table of bottom indices, each with one entry for every page of
 *  a stretch of memory, and the searches in it.  Pages are known by number; pages 0 does not exist.
 *
 *  It stands for a plain map from the first pages of blocks to their headers.
 */
module HeaderIndex {
  import opened Common
  import opened Arithmetic

  const BOTTOM_SZ: nat := 1024
  const MAX_JUMP: nat := HBLKSIZE - 1

  // What the collector keeps of a header here: the pages of the block, whether it is in use, and, if it is,
  // the size of its objects in bytes.
  datatype Hdr = Hdr(n: nat, used: bool, sz: nat)

  // An entry of a bottom index: a null pointer, a header, or a count of pages to go back.
  datatype Entry = Nil | Head | Fwd(count: nat)

  type Key = nat                   // the high order bits of a page number

  // Page p belongs to the block that starts at s.
  predicate In(hdrs: map<nat, Hdr>, s: nat, p: nat) {
    s in hdrs && s <= p < s + hdrs[s].n
  }

  ghost predicate Disjoint(hdrs: map<nat, Hdr>) {
    && (forall s <- hdrs :: s > 0 && hdrs[s].n > 0)
    && (forall s, t :: s in hdrs && t in hdrs && s < t ==> s + hdrs[s].n <= t)
  }

  // The forwarding count for a page d pages into its block.
  function Count(d: nat): nat {
    if d > MAX_JUMP then MAX_JUMP else d
  }

  // The entry e is right for page p.
  ghost predicate Right(hdrs: map<nat, Hdr>, p: nat, e: Entry) {
    && (e == Head <==> p in hdrs)
    && (e.Fwd? <==> exists s: nat :: In(hdrs, s, p) && s < p && hdrs[s].used)
    && (forall s: nat :: In(hdrs, s, p) && s < p && hdrs[s].used ==> e == Fwd(Count(p - s)))
  }

  function Look(index: map<Key, seq<Entry>>, p: nat): Entry {
    var k := p / BOTTOM_SZ;
    if k in index && |index[k]| == BOTTOM_SZ then index[k][p % BOTTOM_SZ] else Nil
  }

  ghost predicate Mirrors(index: map<Key, seq<Entry>>, hdrs: map<nat, Hdr>) {
    && (forall k <- index :: |index[k]| == BOTTOM_SZ)
    && (forall p: nat :: Right(hdrs, p, Look(index, p)))
  }

  ghost predicate Ascending(keys: seq<Key>) {
    forall i, j :: 0 <= i < j < |keys| ==> keys[i] < keys[j]
  }

  lemma InsertKey(keys: seq<Key>, i: nat, k: Key)
    requires Ascending(keys) && i <= |keys| && k !in keys
    requires (forall j :: 0 <= j < i ==> keys[j] < k) && (i < |keys| ==> keys[i] >= k)
    ensures Ascending(keys[..i] + [k] + keys[i..])
    ensures forall x :: x in keys[..i] + [k] + keys[i..] <==> x in keys || x == k
  {
    var t := keys[..i] + [k] + keys[i..];
    assert forall j :: 0 <= j < |t| ==> t[j] == if j < i then keys[j] else if j == i then k else keys[j - 1];
    assert i < |keys| ==> keys[i] in keys;
    forall x ensures x in t <==> x in keys || x == k {
      if x in keys {
        var j :| 0 <= j < |keys| && keys[j] == x;
        assert t[if j < i then j else j + 1] == x;
      }
      assert t[i] == k;
    }
  }

  // A new bottom index changes nothing yet.
  lemma NewIndex(index: map<Key, seq<Entry>>, hdrs: map<nat, Hdr>, k: Key)
    requires Mirrors(index, hdrs) && k !in index
    ensures Mirrors(index[k := seq(BOTTOM_SZ, j => Nil)], hdrs)
    ensures forall p: nat :: Look(index[k := seq(BOTTOM_SZ, j => Nil)], p) == Look(index, p)
  {
    var i2 := index[k := seq(BOTTOM_SZ, j => Nil)];
    forall p: nat ensures Look(i2, p) == Look(index, p) {}
  }

  // Every page of the run has a bottom index.
  ghost predicate Indexed(index: map<Key, seq<Entry>>, h: nat, n: nat) {
    forall p: nat :: h <= p < h + n ==> p / BOTTOM_SZ in index
  }

  // Block h becomes a block in use: its further pages get counts, all other entries stay.
  lemma MirrorUse(index: map<Key, seq<Entry>>, index2: map<Key, seq<Entry>>, hdrs: map<nat, Hdr>, h: nat, sz: nat)
    requires Disjoint(hdrs) && Mirrors(index, hdrs) && h in hdrs && !hdrs[h].used
    requires forall k <- index2 :: |index2[k]| == BOTTOM_SZ
    requires forall p: nat :: Look(index2, p) == if h < p < h + hdrs[h].n then Fwd(Count(p - h)) else Look(index, p)
    ensures var b := hdrs[h := Hdr(hdrs[h].n, true, sz)]; Disjoint(b) && Mirrors(index2, b)
  {
    var b := hdrs[h := Hdr(hdrs[h].n, true, sz)];
    hide Count;
    forall p: nat ensures Right(b, p, Look(index2, p)) {
      assert Right(hdrs, p, Look(index, p));
      if h < p < h + hdrs[h].n {
        assert In(b, h, p);
        assert p !in hdrs;
      } else {
        assert forall s: nat :: s != h ==> (In(b, s, p) <==> In(hdrs, s, p));
      }
    }
  }

  // And back.
  lemma MirrorUnuse(index: map<Key, seq<Entry>>, index2: map<Key, seq<Entry>>, hdrs: map<nat, Hdr>, h: nat)
    requires Disjoint(hdrs) && Mirrors(index, hdrs) && h in hdrs && hdrs[h].used
    requires forall k <- index2 :: |index2[k]| == BOTTOM_SZ
    requires forall p: nat :: Look(index2, p) == if h < p < h + hdrs[h].n then Nil else Look(index, p)
    ensures var b := hdrs[h := Hdr(hdrs[h].n, false, 0)]; Disjoint(b) && Mirrors(index2, b)
  {
    var b := hdrs[h := Hdr(hdrs[h].n, false, 0)];
    hide Count;
    forall p: nat ensures Right(b, p, Look(index2, p)) {
      assert Right(hdrs, p, Look(index, p));
      if h < p < h + hdrs[h].n {
        assert In(hdrs, h, p);
        assert p !in hdrs;
      } else {
        assert forall s: nat :: s != h ==> (In(b, s, p) <==> In(hdrs, s, p));
      }
    }
  }

  // A new header: of a block of unused pages, or of the second part of a divided free block.
  lemma SplitDisjoint(hdrs: map<nat, Hdr>, h: nat, k: nat, b: map<nat, Hdr>)
    requires Disjoint(hdrs) && h in hdrs && 0 < k < hdrs[h].n
    requires b == hdrs[h := Hdr(k, false, 0)][h + k := Hdr(hdrs[h].n - k, false, 0)]
    ensures Disjoint(b) && h + k !in hdrs
  {
  }

  lemma MergedDisjoint(hdrs: map<nat, Hdr>, h: nat, next: nat, b: map<nat, Hdr>)
    requires Disjoint(hdrs) && h in hdrs && next == h + hdrs[h].n && next in hdrs
    requires b == (hdrs - {next})[h := Hdr(hdrs[h].n + hdrs[next].n, false, 0)]
    ensures Disjoint(b) && next != h && b.Keys == hdrs.Keys - {next}
  {
  }

  // The entry of a header is there to be changed.
  lemma HasEntry(index: map<Key, seq<Entry>>, hdrs: map<nat, Hdr>, p: nat)
    requires Mirrors(index, hdrs) && p in hdrs
    ensures p / BOTTOM_SZ in index && forall k <- index :: |index[k]| == BOTTOM_SZ
  {
    assert Right(hdrs, p, Look(index, p));
  }

  lemma MirrorNew(index: map<Key, seq<Entry>>, index2: map<Key, seq<Entry>>, hdrs: map<nat, Hdr>, b: map<nat, Hdr>,
                  h: nat, n: nat)
    requires Mirrors(index, hdrs) && Disjoint(b)
    requires forall k <- index2 :: |index2[k]| == BOTTOM_SZ
    requires forall p: nat :: Look(index2, p) == if p == h then Head else Look(index, p)
    requires h in b && !b[h].used && b.Keys == hdrs.Keys + {h} && h !in hdrs
    requires forall s <- hdrs :: b[s].used == hdrs[s].used && (hdrs[s].used ==> b[s] == hdrs[s])
    ensures Mirrors(index2, b)
  {
    hide Count;
    forall p: nat ensures Right(b, p, Look(index2, p)) {
      assert Right(hdrs, p, Look(index, p));
      assert forall s: nat :: s in b && b[s].used ==> s in hdrs && (In(b, s, p) <==> In(hdrs, s, p));
      assert forall s: nat :: s in hdrs && hdrs[s].used ==> s in b && (In(b, s, p) <==> In(hdrs, s, p));
      if p == h {
        assert forall s: nat :: s < p ==> !In(b, s, p);
      }
    }
  }

  // The header of a free block goes.
  lemma MirrorGone(index: map<Key, seq<Entry>>, index2: map<Key, seq<Entry>>, hdrs: map<nat, Hdr>, b: map<nat, Hdr>,
                   h: nat)
    requires Mirrors(index, hdrs) && Disjoint(hdrs) && Disjoint(b)
    requires forall k <- index2 :: |index2[k]| == BOTTOM_SZ
    requires forall p: nat :: Look(index2, p) == if p == h then Nil else Look(index, p)
    requires h in hdrs && !hdrs[h].used && b.Keys == hdrs.Keys - {h}
    requires forall s <- b :: b[s].used == hdrs[s].used && (hdrs[s].used ==> b[s] == hdrs[s])
    ensures Mirrors(index2, b)
  {
    hide Count;
    forall p: nat ensures Right(b, p, Look(index2, p)) {
      assert Right(hdrs, p, Look(index, p));
      assert forall s: nat :: s in b && b[s].used ==> s in hdrs && (In(b, s, p) <==> In(hdrs, s, p));
      assert forall s: nat :: s in hdrs && hdrs[s].used ==> s in b && (In(b, s, p) <==> In(hdrs, s, p));
      if p == h {
        assert forall s: nat :: s < p ==> !In(hdrs, s, p);
      }
    }
  }

  class Index {
    var index: map<Key, seq<Entry>>
    var keys: seq<Key>             // GC_all_bottom_indices
    var hdrs: map<nat, Hdr>        // the headers themselves

    ghost predicate Valid()
      reads this
    {
      && Disjoint(hdrs) && Mirrors(index, hdrs)
      && Ascending(keys) && (forall k :: k in keys <==> k in index)
    }

    constructor ()
      ensures Valid() && hdrs == map[]
    {
      index, keys, hdrs := map[], [], map[];
    }

    // get_index: make sure that there is a bottom index, and link it where its key belongs.
    method GetIndex(k: Key)
      requires Valid()
      modifies `index, `keys
      ensures Valid() && index.Keys == old(index.Keys) + {k}
      ensures forall p: nat :: Look(index, p) == old(Look(index, p))
    {
      if k !in index {
        var i := 0;
        while i < |keys| && keys[i] < k
          invariant 0 <= i <= |keys|
          invariant forall j :: 0 <= j < i ==> keys[j] < k
        {
          i := i + 1;
        }
        InsertKey(keys, i, k);
        NewIndex(index, hdrs, k);
        hide Mirrors, Disjoint, Look, Ascending;
        keys := keys[..i] + [k] + keys[i..];
        index := index[k := seq(BOTTOM_SZ, j => Nil)];
      }
    }

    // Set the entry of a page that has a bottom index.
    method SetEntry(p: nat, e: Entry)
      requires p / BOTTOM_SZ in index && |index[p / BOTTOM_SZ]| == BOTTOM_SZ
      modifies `index
      ensures index.Keys == old(index.Keys) && forall k <- index :: |index[k]| == |old(index)[k]|
      ensures forall q: nat :: Look(index, q) == if q == p then e else old(Look(index, q))
    {
      var k := p / BOTTOM_SZ;
      index := index[k := index[k][p % BOTTOM_SZ := e]];
      forall q: nat | q != p ensures Look(index, q) == old(Look(index, q)) {
        if q / BOTTOM_SZ == k { assert q % BOTTOM_SZ != p % BOTTOM_SZ; }
      }
    }

    // GC_install_header
    method InstallHeader(p: nat)
      requires Valid()
      modifies `index, `keys
      ensures Ascending(keys) && (forall k :: k in keys <==> k in index) && forall k <- index :: |index[k]| == BOTTOM_SZ
      ensures forall q: nat :: Look(index, q) == if q == p then Head else old(Look(index, q))
    {
      GetIndex(p / BOTTOM_SZ);
      SetEntry(p, Head);
    }

    // A block of pages that belong to no block yet.
    method NewBlock(h: nat, n: nat)
      requires Valid() && h > 0 && n > 0
      requires forall s <- hdrs :: s + hdrs[s].n <= h || h + n <= s
      modifies this
      ensures Valid() && hdrs == old(hdrs)[h := Hdr(n, false, 0)]
    {
      assert h !in hdrs;
      ghost var index0 := index;
      InstallHeader(h);
      MirrorNew(index0, index, hdrs, hdrs[h := Hdr(n, false, 0)], h, n);
      hide Mirrors;
      hdrs := hdrs[h := Hdr(n, false, 0)];
    }

    // A free block is divided k pages after its start.
    method Split(h: nat, k: nat)
      requires Valid() && h in hdrs && !hdrs[h].used && 0 < k < hdrs[h].n
      modifies this
      ensures Valid() && hdrs == old(hdrs)[h := Hdr(k, false, 0)][h + k := Hdr(old(hdrs)[h].n - k, false, 0)]
    {
      hide Mirrors, Disjoint, Ascending, Look;
      ghost var index0 := index;
      var b := hdrs[h := Hdr(k, false, 0)][h + k := Hdr(hdrs[h].n - k, false, 0)];
      SplitDisjoint(hdrs, h, k, b);
      InstallHeader(h + k);
      MirrorNew(index0, index, hdrs, b, h + k, hdrs[h].n - k);
      hdrs := b;
    }

    // A free block is merged with the free block after it: GC_remove_header on the second.
    method Merge(h: nat)
      requires Valid() && h in hdrs && !hdrs[h].used && h + hdrs[h].n in hdrs && !hdrs[h + hdrs[h].n].used
      modifies this
      ensures Valid()
      ensures hdrs == (old(hdrs) - {h + old(hdrs)[h].n})
                        [h := Hdr(old(hdrs)[h].n + old(hdrs)[h + old(hdrs)[h].n].n, false, 0)]
    {
      hide Mirrors, Disjoint, Ascending, Look;
      ghost var index0 := index;
      var next := h + hdrs[h].n;
      var b := (hdrs - {next})[h := Hdr(hdrs[h].n + hdrs[next].n, false, 0)];
      MergedDisjoint(hdrs, h, next, b);
      HasEntry(index, hdrs, next);
      SetEntry(next, Nil);
      MirrorGone(index0, index, hdrs, b, next);
      hdrs := b;
    }

    // The first loop of GC_install_counts: every page of the block gets a bottom index.
    method CoverRun(h: nat, n: nat)
      requires Valid() && n > 0
      modifies `index, `keys
      ensures Valid() && Indexed(index, h, n)
      ensures forall q: nat :: Look(index, q) == old(Look(index, q))
    {
      hide Mirrors, Look;
      var p := h;
      while p < h + n
        invariant Valid() && h <= p
        invariant forall q: nat :: Look(index, q) == old(Look(index, q))
        invariant forall q: nat :: h <= q < p ==> q / BOTTOM_SZ in index || q / BOTTOM_SZ == p / BOTTOM_SZ
        decreases h + n - p
      {
        GetIndex(p / BOTTOM_SZ);
        p := p + BOTTOM_SZ;
      }
      GetIndex((h + n - 1) / BOTTOM_SZ);
    }

    // GC_install_counts, and the change of the header to that of a block in use.
    method Use(h: nat, sz: nat)
      requires Valid() && h in hdrs && !hdrs[h].used
      modifies this
      ensures Valid() && hdrs == old(hdrs)[h := Hdr(old(hdrs)[h].n, true, sz)]
    {
      ghost var index0 := index;
      var n := hdrs[h].n;
      CoverRun(h, n);
      hide Mirrors, Disjoint, Look;
      LooksSized();
      var p := h + 1;
      while p < h + n
        invariant h < p <= h + n && hdrs == old(hdrs)
        invariant Indexed(index, h, n) && forall k <- index :: |index[k]| == BOTTOM_SZ
        invariant Ascending(keys) && forall k :: k in keys <==> k in index
        invariant forall q: nat :: Look(index, q) == if h < q < p then Fwd(Count(q - h)) else Look(index0, q)
      {
        SetEntry(p, Fwd(Count(p - h)));
        p := p + 1;
      }
      MirrorUse(index0, index, hdrs, h, sz);
      hdrs := hdrs[h := Hdr(n, true, sz)];
    }

    // GC_remove_counts, and the change of the header to that of a free block.
    method Unuse(h: nat)
      requires Valid() && h in hdrs && hdrs[h].used
      modifies this
      ensures Valid() && hdrs == old(hdrs)[h := Hdr(old(hdrs)[h].n, false, 0)]
    {
      ghost var index0 := index;
      var n := hdrs[h].n;
      UsedIndexed(h);
      hide Mirrors, Disjoint, Look;
      LooksSized();
      var p := h + 1;
      while p < h + n
        invariant h < p <= h + n && hdrs == old(hdrs)
        invariant Indexed(index, h, n) && forall k <- index :: |index[k]| == BOTTOM_SZ
        invariant Ascending(keys) && forall k :: k in keys <==> k in index
        invariant forall q: nat :: Look(index, q) == if h < q < p then Nil else Look(index0, q)
      {
        SetEntry(p, Nil);
        p := p + 1;
      }
      MirrorUnuse(index0, index, hdrs, h);
      hdrs := hdrs[h := Hdr(n, false, 0)];
    }

    lemma LooksSized()
      requires Mirrors(index, hdrs)
      ensures forall k <- index :: |index[k]| == BOTTOM_SZ
    {
    }

    lemma UsedIndexed(h: nat)
      requires Valid() && h in hdrs && hdrs[h].used
      ensures Indexed(index, h, hdrs[h].n)
    {
      forall p: nat | h <= p < h + hdrs[h].n ensures p / BOTTOM_SZ in index {
        assert Right(hdrs, p, Look(index, p));
        assert In(hdrs, h, p);
      }
    }

    /****** searches ******/

    // A page with a header or a count in it, and where the count leads.
    lemma EntryMeans(p: nat)
      requires Valid()
      ensures Look(index, p) == Head <==> p in hdrs
      ensures p in hdrs ==> p > 0 && hdrs[p].n > 0 && p / BOTTOM_SZ in index
      ensures var e := Look(index, p);
              e.Fwd? ==> exists s: nat :: In(hdrs, s, p) && hdrs[s].used && s <= p - e.count < p
      ensures Look(index, p) == Nil ==> forall s: nat :: In(hdrs, s, p) ==> s < p && !hdrs[s].used
    {
      assert Right(hdrs, p, Look(index, p));
      if Look(index, p).Fwd? {
        var s: nat :| In(hdrs, s, p) && s < p && hdrs[s].used;
        assert Look(index, p) == Fwd(Count(p - s));
      }
    }

    // Follow the counts from a page back to the start of its block.  Not found means that the page is not part
    // of a block in use, nor the first page of a free one.
    method FindStart(p0: nat) returns (found: bool, s: nat)
      requires Valid()
      ensures found ==> In(hdrs, s, p0) && (s == p0 || hdrs[s].used)
      ensures !found ==> forall b: nat :: In(hdrs, b, p0) ==> b < p0 && !hdrs[b].used
    {
      EntryMeans(p0);
      if Look(index, p0) == Nil {
        return false, 0;
      }
      s := p0;
      while Look(index, s).Fwd?
        invariant Look(index, s) != Nil
        invariant s == p0 || exists b: nat :: In(hdrs, b, p0) && In(hdrs, b, s) && hdrs[b].used
        decreases s
      {
        EntryMeans(s);
        SameBlock(p0, s);
        s := s - Look(index, s).count;
        EntryMeans(s);
      }
      EntryMeans(s);
      found := true;
    }

    // A page and the place its count leads to are in one block in use.
    lemma SameBlock(p0: nat, p: nat)
      requires Valid() && Look(index, p).Fwd?
      requires p == p0 || exists b: nat :: In(hdrs, b, p0) && In(hdrs, b, p) && hdrs[b].used
      ensures var q := p - Look(index, p).count;
              0 <= q < p && exists b: nat :: In(hdrs, b, p0) && In(hdrs, b, q) && hdrs[b].used
    {
      EntryMeans(p);
      var s: nat :| In(hdrs, s, p) && hdrs[s].used && s <= p - Look(index, p).count < p;
      if p != p0 {
        var b: nat :| In(hdrs, b, p0) && In(hdrs, b, p) && hdrs[b].used;
        assert b == s;
      }
      assert In(hdrs, s, p - Look(index, p).count);
    }

    // There is no start of a block between a page and the place its count leads to, and none further down in the
    // block than its own start.
    lemma NoStartSkipped(p: nat)
      requires Valid() && Look(index, p).Fwd?
      ensures 0 < Look(index, p).count <= p
      ensures forall t <- hdrs :: t <= p ==> t <= p - Look(index, p).count
    {
      EntryMeans(p);
    }

    // A start below the pages of one bottom index is at or below the last page of the bottom index before it.
    lemma StartBelow(i: nat, t: nat)
      requires Valid() && i < |keys| && t in hdrs && t < keys[i] * BOTTOM_SZ
      ensures i > 0 && t <= keys[i - 1] * BOTTOM_SZ + BOTTOM_SZ - 1
    {
      EntryMeans(t);
      assert t / BOTTOM_SZ in keys;
    }

    lemma NextBelow(i: nat)
      requires Valid() && i < |keys|
      ensures i > 0 ==> keys[i - 1] * BOTTOM_SZ + BOTTOM_SZ <= keys[i] * BOTTOM_SZ
    {
    }

    // A start above them is at or above the first page of the next.
    lemma StartAbove(i: nat, t: nat)
      requires Valid() && i < |keys| && t in hdrs && t >= keys[i] * BOTTOM_SZ + BOTTOM_SZ
      ensures i + 1 < |keys| && t >= keys[i + 1] * BOTTOM_SZ
    {
      EntryMeans(t);
      assert t / BOTTOM_SZ in keys;
    }

    // Block s is the last that starts at or before page h.
    ghost predicate LastStart(h: nat, s: nat)
      reads `hdrs
    {
      s in hdrs && s <= h && forall t <- hdrs :: t <= h ==> t <= s
    }

    // Blocks that start at or before page h start at or before page x.
    ghost predicate StartsBelow(h: nat, x: int)
      reads `hdrs
    {
      forall t <- hdrs :: t <= h ==> t <= x
    }

    // GC_prev_block: the last block that starts at or before page h; it may be free.
    method PrevBlock(h: nat) returns (found: bool, s: nat)
      requires Valid()
      ensures found ==> LastStart(h, s)
      ensures !found ==> forall t <- hdrs :: t > h
    {
      var i, j := PrevPlace(h);
      found, s := false, 0;
      hide Mirrors, Disjoint, Look, Ascending, In, LastStart, StartsBelow;
      while i >= 0 && !found
        invariant -1 <= i < |keys| && j < BOTTOM_SZ
        invariant found ==> LastStart(h, s)
        invariant !found && i >= 0 ==> keys[i] * BOTTOM_SZ + j <= h && j >= 0
        invariant !found ==> StartsBelow(h, if i >= 0 then keys[i] * BOTTOM_SZ + j else -1)
        decreases i, !found
      {
        found, s := PrevInIndex(i, j, h);
        if !found {
          GoBelow(i, h);
          j := BOTTOM_SZ - 1;
          i := i - 1;
        }
      }
      if !found { NoneBelow(h); }
    }

    lemma NoneBelow(h: nat)
      requires StartsBelow(h, -1)
      ensures forall t <- hdrs :: t > h
    {
    }

    // From one bottom index to the one before it.
    lemma GoBelow(i: nat, h: nat)
      requires Valid() && i < |keys| && StartsBelow(h, keys[i] * BOTTOM_SZ - 1) && keys[i] * BOTTOM_SZ <= h
      ensures StartsBelow(h, if i > 0 then keys[i - 1] * BOTTOM_SZ + BOTTOM_SZ - 1 else -1)
      ensures i > 0 ==> keys[i - 1] * BOTTOM_SZ + BOTTOM_SZ - 1 <= h
    {
      forall t <- hdrs | t <= h ensures i > 0 && t <= keys[i - 1] * BOTTOM_SZ + BOTTOM_SZ - 1 { StartBelow(i, t); }
      NextBelow(i);
    }

    // Where the search starts: at the entry of page h, or at the end of the last bottom index before it.
    method PrevPlace(h: nat) returns (i: int, j: int)
      requires Valid()
      ensures -1 <= i < |keys| && 0 <= j < BOTTOM_SZ && (i >= 0 ==> keys[i] * BOTTOM_SZ + j <= h)
      ensures StartsBelow(h, if i >= 0 then keys[i] * BOTTOM_SZ + j else -1)
    {
      hide Mirrors, Disjoint, Look, Ascending, In;
      if h / BOTTOM_SZ in index {
        i :| 0 <= i < |keys| && keys[i] == h / BOTTOM_SZ;
        j := h % BOTTOM_SZ;
      } else {
        i, j := |keys| - 1, BOTTOM_SZ - 1;
        while i >= 0 && keys[i] > h / BOTTOM_SZ
          invariant -1 <= i < |keys|
          invariant forall l :: i < l < |keys| ==> keys[l] > h / BOTTOM_SZ
        {
          i := i - 1;
        }
        PlaceBelow(h, i);
      }
    }

    lemma PlaceBelow(h: nat, i: int)
      requires Valid() && -1 <= i < |keys| && h / BOTTOM_SZ !in index && (i >= 0 ==> keys[i] <= h / BOTTOM_SZ)
      requires forall l :: i < l < |keys| ==> keys[l] > h / BOTTOM_SZ
      ensures i >= 0 ==> keys[i] * BOTTOM_SZ + BOTTOM_SZ - 1 <= h
      ensures StartsBelow(h, if i >= 0 then keys[i] * BOTTOM_SZ + BOTTOM_SZ - 1 else -1)
    {
      assert i >= 0 ==> keys[i] in index;
      forall t <- hdrs | t <= h ensures i >= 0 && t <= keys[i] * BOTTOM_SZ + BOTTOM_SZ - 1 {
        EntryMeans(t);
        var l :| 0 <= l < |keys| && keys[l] == t / BOTTOM_SZ;
        assert l <= i;
        assert l < i ==> keys[l] < keys[i];
      }
    }

    // The search in one bottom index.
    method PrevInIndex(i: nat, j0: int, h: nat) returns (found: bool, s: nat)
      requires Valid() && i < |keys| && 0 <= j0 < BOTTOM_SZ && keys[i] * BOTTOM_SZ + j0 <= h
      requires StartsBelow(h, keys[i] * BOTTOM_SZ + j0)
      ensures if found then LastStart(h, s) else StartsBelow(h, keys[i] * BOTTOM_SZ - 1) && keys[i] * BOTTOM_SZ <= h
    {
      hide Mirrors, Disjoint, Look, Ascending, In;
      var j := j0;
      found, s := false, 0;
      while j >= 0 && !found
        invariant j < BOTTOM_SZ && keys[i] * BOTTOM_SZ + j <= h
        invariant if found then LastStart(h, s) else StartsBelow(h, keys[i] * BOTTOM_SZ + j)
        decreases j, !found
      {
        var p := keys[i] * BOTTOM_SZ + j;
        EntryMeans(p);
        match Look(index, p)
        case Nil => j := j - 1;
        case Fwd(c) =>
          NoStartSkipped(p);
          j := j - c;
        case Head => found, s := true, p;
      }
    }

    // GC_free_block_ending_at: the free block, if there is one, that ends where block h starts.
    method FreeBlockEndingAt(h: nat) returns (found: bool, s: nat)
      requires Valid() && h in hdrs
      ensures found ==> s in hdrs && !hdrs[s].used && s + hdrs[s].n == h
      ensures !found ==> forall t <- hdrs :: hdrs[t].used || t + hdrs[t].n != h
    {
      EntryMeans(h);
      found, s := FindStart(h - 1);
      if found {
        assert s + hdrs[s].n == h;
        found := !hdrs[s].used;
      } else {
        found, s := PrevBlock(h - 1);
        if found {
          found := !hdrs[s].used && s + hdrs[s].n == h;
        }
      }
    }

    // Block s is the first in use that starts at or after page h.
    ghost predicate FirstUsed(h: nat, s: nat)
      reads `hdrs
    {
      s in hdrs && hdrs[s].used && s >= h && forall t <- hdrs :: hdrs[t].used && t >= h ==> t >= s
    }

    // Blocks in use that start at or after page h start at or after page x.
    ghost predicate UsedAbove(h: nat, x: nat)
      reads `hdrs
    {
      forall t <- hdrs :: hdrs[t].used && t >= h ==> t >= x
    }

    ghost predicate NoneUsed(h: nat)
      reads `hdrs
    {
      forall t <- hdrs :: hdrs[t].used ==> t < h
    }

    // GC_next_used_block: the first block in use that starts at or after page h.
    method NextUsedBlock(h: nat) returns (found: bool, s: nat)
      requires Valid()
      ensures if found then FirstUsed(h, s) else NoneUsed(h)
    {
      var i, j := NextPlace(h);
      found, s := false, 0;
      hide Mirrors, Disjoint, Look, Ascending, In, FirstUsed, UsedAbove, NoneUsed;
      while i < |keys| && !found
        invariant 0 <= i <= |keys| && 0 <= j < BOTTOM_SZ
        invariant found ==> FirstUsed(h, s)
        invariant !found && i < |keys| ==> keys[i] * BOTTOM_SZ + j >= h && UsedAbove(h, keys[i] * BOTTOM_SZ + j)
        invariant !found && i == |keys| ==> NoneUsed(h)
        decreases |keys| - i, !found
      {
        found, s := NextInIndex(i, j, h);
        if !found {
          GoAbove(i, h);
          j := 0;
          i := i + 1;
        }
      }
    }

    // From one bottom index to the next.
    lemma GoAbove(i: nat, h: nat)
      requires Valid() && i < |keys| && UsedAbove(h, keys[i] * BOTTOM_SZ + BOTTOM_SZ)
      requires keys[i] * BOTTOM_SZ + BOTTOM_SZ >= h
      ensures if i + 1 < |keys| then UsedAbove(h, keys[i + 1] * BOTTOM_SZ) && keys[i + 1] * BOTTOM_SZ >= h
              else NoneUsed(h)
    {
      forall t <- hdrs | hdrs[t].used && t >= h
        ensures i + 1 < |keys| && t >= keys[i + 1] * BOTTOM_SZ
      {
        StartAbove(i, t);
      }
      if i + 1 < |keys| { NextBelow(i + 1); }
    }

    method NextPlace(h: nat) returns (i: nat, j: nat)
      requires Valid()
      ensures i <= |keys| && j < BOTTOM_SZ
      ensures if i < |keys| then UsedAbove(h, keys[i] * BOTTOM_SZ + j) && keys[i] * BOTTOM_SZ + j >= h else NoneUsed(h)
    {
      hide Mirrors, Disjoint, Look, Ascending, In;
      i, j := 0, 0;
      if h / BOTTOM_SZ in index {
        i :| 0 <= i < |keys| && keys[i] == h / BOTTOM_SZ;
        j := h % BOTTOM_SZ;
      } else {
        while i < |keys| && keys[i] < h / BOTTOM_SZ
          invariant 0 <= i <= |keys|
          invariant forall l :: 0 <= l < i ==> keys[l] < h / BOTTOM_SZ
        {
          i := i + 1;
        }
        PlaceAbove(h, i);
      }
    }

    lemma PlaceAbove(h: nat, i: nat)
      requires Valid() && i <= |keys| && h / BOTTOM_SZ !in index && (i < |keys| ==> keys[i] >= h / BOTTOM_SZ)
      requires forall l :: 0 <= l < i ==> keys[l] < h / BOTTOM_SZ
      ensures if i < |keys| then UsedAbove(h, keys[i] * BOTTOM_SZ) && keys[i] * BOTTOM_SZ >= h else NoneUsed(h)
    {
      assert i < |keys| ==> keys[i] in index;
      forall t <- hdrs | t >= h ensures i < |keys| && t >= keys[i] * BOTTOM_SZ {
        EntryMeans(t);
        var l :| 0 <= l < |keys| && keys[l] == t / BOTTOM_SZ;
        assert i <= l;
        assert i < l ==> keys[i] < keys[l];
      }
    }

    // The search in one bottom index; the pages of a free block are skipped.
    method NextInIndex(i: nat, j0: nat, h: nat) returns (found: bool, s: nat)
      requires Valid() && i < |keys| && j0 < BOTTOM_SZ
      requires keys[i] * BOTTOM_SZ + j0 >= h && UsedAbove(h, keys[i] * BOTTOM_SZ + j0)
      ensures if found then FirstUsed(h, s)
              else UsedAbove(h, keys[i] * BOTTOM_SZ + BOTTOM_SZ) && keys[i] * BOTTOM_SZ + BOTTOM_SZ >= h
    {
      hide Mirrors, Disjoint, Look, Ascending, In;
      var j := j0;
      found, s := false, 0;
      while j < BOTTOM_SZ && !found
        invariant j >= j0 && keys[i] * BOTTOM_SZ + j >= h
        invariant if found then FirstUsed(h, s) else UsedAbove(h, keys[i] * BOTTOM_SZ + j)
        decreases BOTTOM_SZ - j, !found
      {
        var p := keys[i] * BOTTOM_SZ + j;
        EntryMeans(p);
        if Look(index, p) != Head {
          j := j + 1;
        } else if hdrs[p].used {
          found, s := true, p;
        } else {
          NoStartInside(p);
          j := j + hdrs[p].n;
        }
      }
    }

    lemma NoStartInside(p: nat)
      requires Valid() && p in hdrs
      ensures forall t <- hdrs :: p < t ==> p + hdrs[p].n <= t
    {
    }

    // The bottom index whose pages page t is among comes before the one at place i of the list.
    ghost predicate Earlier(t: nat, i: nat)
      reads this
    {
      if i < |keys| then t / BOTTOM_SZ < keys[i] else t / BOTTOM_SZ in keys
    }

    lemma EarlierStep(i: nat, t: nat)
      requires Valid() && i < |keys| && t in hdrs
      ensures Earlier(t, i + 1) <==> Earlier(t, i) || t / BOTTOM_SZ == keys[i]
      ensures Earlier(t, |keys|)
      ensures !Earlier(t, 0)
      ensures t / BOTTOM_SZ == keys[i] ==> !Earlier(t, i)
    {
      EntryMeans(t);
      assert t / BOTTOM_SZ in keys;
    }

    // GC_apply_to_all_blocks: the blocks that the function is called on, in that order.
    method ApplyToAllBlocks() returns (visited: seq<nat>)
      requires Valid()
      ensures forall t :: t in visited <==> t in hdrs && hdrs[t].used
      ensures forall a, b :: 0 <= a < b < |visited| ==> visited[a] != visited[b]
    {
      visited := [];
      if keys == [] {
        forall t <- hdrs ensures false { EntryMeans(t); }
        return;
      }
      forall t <- hdrs ensures Earlier(t, |keys|) && !Earlier(t, 0) {
        EarlierStep(0, t);
      }
      hide Mirrors, Disjoint, Look, Ascending, In, Earlier;
      var i := 0;
      while i < |keys|
        invariant 0 <= i <= |keys|
        invariant forall t :: t in visited <==> t in hdrs && hdrs[t].used && Earlier(t, i)
        invariant forall a, b :: 0 <= a < b < |visited| ==> visited[a] != visited[b]
      {
        var j: int := BOTTOM_SZ - 1;
        forall t <- hdrs
          ensures Earlier(t, i + 1) <==> Earlier(t, i) || t / BOTTOM_SZ == keys[i]
          ensures t / BOTTOM_SZ == keys[i] ==> !Earlier(t, i)
        {
          EarlierStep(i, t);
        }
        while j >= 0
          invariant j < BOTTOM_SZ
          invariant forall t :: t in visited <==>
                      t in hdrs && hdrs[t].used &&
                          (Earlier(t, i) || (t / BOTTOM_SZ == keys[i] && t > keys[i] * BOTTOM_SZ + j))
          invariant forall a, b :: 0 <= a < b < |visited| ==> visited[a] != visited[b]
          decreases j
        {
          var p := keys[i] * BOTTOM_SZ + j;
          EntryMeans(p);
          match Look(index, p)
          case Nil => j := j - 1;
          case Fwd(c) =>
            NoStartSkipped(p);
            j := j - c;
          case Head =>
            if hdrs[p].used {
              assert p !in visited;
              visited := visited + [p];
            }
            j := j - 1;
        }
        i := i + 1;
      }
    }

    // GC_base: the start of the object that byte p lies in, or 0.
    method Base(p: nat) returns (r: nat)
      requires Valid() && ObjectsFit(hdrs)
      ensures r == BaseOf(hdrs, p)
    {
      hide Mirrors, Disjoint, Look, ObjectsFit, BaseOf, Ascending, RoundDown;
      var found, h := FindStart(p / HBLKSIZE);
      if !found || !hdrs[h].used {
        NoSlotIn(hdrs, p, found, h);
        return 0;
      }
      var sz := hdrs[h].sz;
      UsedSize(hdrs, h);
      SlotFound(hdrs, h, p);
      r := RoundDown(if h == p / HBLKSIZE then p else h * HBLKSIZE, sz);
      if r + sz > (h + 1) * HBLKSIZE && sz <= HBLKSIZE {
        return 0;
      }
      if p >= r + sz {
        return 0;
      }
    }
  }

  /****** objects ******/

  const WORD: nat := 8

  // A block in use holds objects of one size, a multiple of two words, and is as many pages as one object needs.
  ghost predicate ObjectsFit(hdrs: map<nat, Hdr>) {
    forall s <- hdrs :: hdrs[s].used ==>
      hdrs[s].sz > 0 && hdrs[s].sz % (2 * WORD) == 0 && hdrs[s].n == (hdrs[s].sz + HBLKSIZE - 1) / HBLKSIZE
  }

  // Byte r is the start of a slot for an object in block s: the slots follow each other from the start of the
  // block, and small ones lie within its page.
  ghost predicate SlotAt(hdrs: map<nat, Hdr>, s: nat, r: nat) {
    && s in hdrs && hdrs[s].used && hdrs[s].sz > 0
    && s * HBLKSIZE <= r < (s + 1) * HBLKSIZE
    && (exists k: nat :: r == s * HBLKSIZE + k * hdrs[s].sz)
    && (hdrs[s].sz <= HBLKSIZE ==> r + hdrs[s].sz <= (s + 1) * HBLKSIZE)
  }

  // Byte p lies in the object at r.
  ghost predicate InSlot(hdrs: map<nat, Hdr>, s: nat, r: nat, p: nat) {
    SlotAt(hdrs, s, r) && r <= p < r + hdrs[s].sz
  }

  // The start of the object that byte p lies in, or 0 if it lies in none.
  ghost function BaseOf(hdrs: map<nat, Hdr>, p: nat): (r: nat)
    ensures r != 0 ==> exists s: nat :: InSlot(hdrs, s, r, p)
  {
    if exists s: nat, r: nat :: InSlot(hdrs, s, r, p) then
      var s: nat, r: nat :| InSlot(hdrs, s, r, p);
      r
    else
      0
  }

  // The slots of one block do not overlap.
  lemma SlotsApart(hdrs: map<nat, Hdr>, s: nat, r: nat, r2: nat, p: nat)
    requires InSlot(hdrs, s, r, p) && InSlot(hdrs, s, r2, p)
    ensures r == r2
  {
    var sz := hdrs[s].sz;
    var k: nat :| r == s * HBLKSIZE + k * sz;
    var l: nat :| r2 == s * HBLKSIZE + l * sz;
    if k < l { Multiples(k, l, sz); }
    if l < k { Multiples(l, k, sz); }
  }

  // The pages of a slot belong to its block.
  lemma SlotPage(hdrs: map<nat, Hdr>, s: nat, r: nat, p: nat)
    requires ObjectsFit(hdrs) && InSlot(hdrs, s, r, p)
    ensures In(hdrs, s, p / HBLKSIZE)
    ensures hdrs[s].sz > HBLKSIZE ==> r == s * HBLKSIZE
  {
    var sz := hdrs[s].sz;
    var k: nat :| r == s * HBLKSIZE + k * sz;
    if k > 0 { Multiples(0, k, sz); }
  }

  // No byte lies in two objects, and the first byte of an object lies in it.
  lemma BaseUnique(hdrs: map<nat, Hdr>, s: nat, r: nat, p: nat)
    requires Disjoint(hdrs) && ObjectsFit(hdrs) && InSlot(hdrs, s, r, p)
    ensures BaseOf(hdrs, p) == r > 0
    ensures BaseOf(hdrs, r) == r
  {
    forall q: nat | InSlot(hdrs, s, r, q) ensures BaseOf(hdrs, q) == r {
      forall t: nat, r2: nat | InSlot(hdrs, t, r2, q) ensures r2 == r {
        SlotPage(hdrs, s, r, q);
        SlotPage(hdrs, t, r2, q);
        SlotsApart(hdrs, s, r, r2, q);
      }
    }
    assert InSlot(hdrs, s, r, r);
  }

  // Asking for the base of a base changes nothing.
  lemma BaseIdempotent(hdrs: map<nat, Hdr>, p: nat)
    requires Disjoint(hdrs) && ObjectsFit(hdrs)
    ensures BaseOf(hdrs, BaseOf(hdrs, p)) == BaseOf(hdrs, p)
  {
    if r: nat, s: nat :| InSlot(hdrs, s, r, p) {
      BaseUnique(hdrs, s, r, p);
    } else {
      forall s: nat, r: nat ensures !InSlot(hdrs, s, r, 0) {
        if InSlot(hdrs, s, r, 0) { SlotPage(hdrs, s, r, 0); }
      }
    }
  }

  // A page of no block in use has no objects.
  lemma NoSlot(hdrs: map<nat, Hdr>, p: nat)
    requires ObjectsFit(hdrs)
    requires forall s: nat :: In(hdrs, s, p / HBLKSIZE) ==> !hdrs[s].used
    ensures BaseOf(hdrs, p) == 0
  {
    if s: nat, r: nat :| InSlot(hdrs, s, r, p) {
      SlotPage(hdrs, s, r, p);
    }
  }

  // Nor has the page of a free block, whether or not its first page is the one asked about.
  lemma NoSlotIn(hdrs: map<nat, Hdr>, p: nat, found: bool, h: nat)
    requires Disjoint(hdrs) && ObjectsFit(hdrs)
    requires found ==> In(hdrs, h, p / HBLKSIZE) && !hdrs[h].used
    requires !found ==> forall s: nat :: In(hdrs, s, p / HBLKSIZE) ==> s < p / HBLKSIZE && !hdrs[s].used
    ensures BaseOf(hdrs, p) == 0
  {
    NoSlot(hdrs, p);
  }

  lemma UsedSize(hdrs: map<nat, Hdr>, h: nat)
    requires ObjectsFit(hdrs) && h in hdrs && hdrs[h].used
    ensures hdrs[h].sz > 0
  {
  }

  // Rounding down to a word.
  function WordOf(q: nat): nat {
    q / WORD * WORD
  }

  lemma WordBetween(lo: nat, hi: nat, p: nat)
    requires lo % WORD == 0 && lo <= p < hi
    ensures lo <= WordOf(p) < hi
  {
  }

  lemma SlotsAligned(k: nat, sz: nat)
    requires sz % (2 * WORD) == 0
    ensures k * sz % WORD == 0
  {
    assert k * sz == WORD * (2 * k * (sz / (2 * WORD)));
  }

  // Rounding down an address in a block to a word, and then to a multiple of the size of its objects.
  lemma SlotBefore(sz: nat, p: nat, k: nat)
    requires sz > 0 && sz % (2 * WORD) == 0 && k * sz <= p < k * sz + sz
    ensures WordOf(p) - WordOf(p) % sz == k * sz
  {
    SlotsAligned(k, sz);
    WordBetween(k * sz, k * sz + sz, p);
    Quotient(WordOf(p), sz, k);
  }

  lemma RoundedWord(h: nat, d: nat)
    requires d < HBLKSIZE
    ensures WordOf(h * HBLKSIZE + d) == h * HBLKSIZE + WordOf(d) && WordOf(h * HBLKSIZE + d) % HBLKSIZE == WordOf(d)
  {
    Quotient(h * HBLKSIZE + d, WORD, h * (HBLKSIZE / WORD) + d / WORD);
    Quotient(h * HBLKSIZE + WordOf(d), HBLKSIZE, h);
  }

  // How far into block h GC_base looks for a byte of it.
  function Into(h: nat, p: nat): (d: nat)
    ensures d < HBLKSIZE
  {
    if h == p / HBLKSIZE then p % HBLKSIZE else 0
  }

  // A slot of block h that byte p lies in can only be the one GC_base computes.
  lemma OnlySlot(hdrs: map<nat, Hdr>, h: nat, p: nat, s: nat, r: nat)
    requires Disjoint(hdrs) && ObjectsFit(hdrs) && In(hdrs, h, p / HBLKSIZE) && hdrs[h].used && InSlot(hdrs, s, r, p)
    ensures s == h && r == h * HBLKSIZE + Into(h, p) / hdrs[h].sz * hdrs[h].sz
  {
    SlotPage(hdrs, s, r, p);
    assert s == h;
    var sz := hdrs[h].sz;
    hide Disjoint, ObjectsFit;
    if h == p / HBLKSIZE {
      var l: nat :| r == h * HBLKSIZE + l * sz;
      Quotient(Into(h, p), sz, l);
    } else {
      Quotient(0, sz, 0);
      if sz <= HBLKSIZE {
        assert false;
      }
    }
  }

  // The word before byte q, and from there back by its displacement in an object of its block.
  function RoundDown(q: nat, sz: nat): (r: int)
    requires sz > 0
  {
    WordOf(q) - WordOf(q) % HBLKSIZE % sz
  }

  lemma RoundedDown(h: nat, p: nat, sz: nat)
    requires sz > 0 && sz % (2 * WORD) == 0 && h <= p / HBLKSIZE
    ensures var d := Into(h, p);
            var r := RoundDown(if h == p / HBLKSIZE then p else h * HBLKSIZE, sz);
            r == h * HBLKSIZE + d / sz * sz && h * HBLKSIZE <= r <= h * HBLKSIZE + d <= p
  {
    var d := Into(h, p);
    DivMod(d, sz);
    SlotBefore(sz, d, d / sz);
    RoundedWord(h, d);
    assert h * HBLKSIZE + d == if h == p / HBLKSIZE then p else h * HBLKSIZE;
  }

  // What GC_base computes in block h of the page of byte p.
  lemma SlotFound(hdrs: map<nat, Hdr>, h: nat, p: nat)
    requires Disjoint(hdrs) && ObjectsFit(hdrs) && In(hdrs, h, p / HBLKSIZE) && hdrs[h].used && hdrs[h].sz > 0
    ensures var r := RoundDown(if h == p / HBLKSIZE then p else h * HBLKSIZE, hdrs[h].sz);
            r >= 0 && BaseOf(hdrs, p) ==
            if (r + hdrs[h].sz > (h + 1) * HBLKSIZE && hdrs[h].sz <= HBLKSIZE) || p >= r + hdrs[h].sz then 0 else r
  {
    hide Disjoint, InSlot, RoundDown, Into;
    var sz := hdrs[h].sz;
    var r := RoundDown(if h == p / HBLKSIZE then p else h * HBLKSIZE, sz);
    RoundedDown(h, p, sz);
    if (r + sz > (h + 1) * HBLKSIZE && sz <= HBLKSIZE) || p >= r + sz {
      forall s: nat, r2: nat ensures !InSlot(hdrs, s, r2, p) {
        if InSlot(hdrs, s, r2, p) {
          InSlotFits(hdrs, s, r2, p);
          OnlySlot(hdrs, h, p, s, r2);
        }
      }
    } else {
      MakeSlot(hdrs, h, Into(h, p) / sz, r, p);
      BaseUnique(hdrs, h, r, p);
    }
  }

  lemma InSlotFits(hdrs: map<nat, Hdr>, s: nat, r: nat, p: nat)
    requires InSlot(hdrs, s, r, p)
    ensures s in hdrs && (hdrs[s].sz <= HBLKSIZE ==> r + hdrs[s].sz <= (s + 1) * HBLKSIZE) && r <= p < r + hdrs[s].sz
  {
  }

  lemma MakeSlot(hdrs: map<nat, Hdr>, h: nat, k: nat, r: nat, p: nat)
    requires h in hdrs && hdrs[h].used && hdrs[h].sz > 0 && r == h * HBLKSIZE + k * hdrs[h].sz && r < (h + 1) * HBLKSIZE
    requires (hdrs[h].sz <= HBLKSIZE ==> r + hdrs[h].sz <= (h + 1) * HBLKSIZE) && r <= p < r + hdrs[h].sz
    ensures InSlot(hdrs, h, r, p)
  {
    assert r >= h * HBLKSIZE by { assert k * hdrs[h].sz >= 0; }
  }
}
