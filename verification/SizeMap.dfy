/** The size map (misc.c): how many granules an object of a requested number of bytes gets. */
module SizeMap {
  import opened Arithmetic

  const GRANULE_BYTES: nat := 16
  const HBLK_GRANULES: nat := 256
  const MAXOBJGRANULES: nat := 128
  const MAXOBJBYTES: nat := 2048
  const TINY_FREELISTS: nat := 25

  function RoundedUpGranules(n: nat, extra: nat): (g: nat)
    ensures GRANULE_BYTES * g >= n + extra > GRANULE_BYTES * g - GRANULE_BYTES
  {
    (n + GRANULE_BYTES - 1 + extra) / GRANULE_BYTES
  }

  // An even number of granules, not above the largest size of a small object.
  function EvenSize(g: nat): (e: nat)
    ensures e % 2 == 0 && e <= MAXOBJGRANULES
    ensures g <= MAXOBJGRANULES ==> g <= e <= g + 1
  {
    var e := (g + 1) / 2 * 2;
    if e > MAXOBJGRANULES then MAXOBJGRANULES else e
  }

  // The same number of objects in a block, each as large as it can be.
  function Widened(g: nat): nat
    requires g > 0 && HBLK_GRANULES / g > 0
  {
    HBLK_GRANULES / (HBLK_GRANULES / g) / 2 * 2
  }

  lemma Halves(g: nat)
    requires 0 < g <= MAXOBJGRANULES
    ensures HBLK_GRANULES / g >= 2
    ensures HBLK_GRANULES / g * g <= HBLK_GRANULES < HBLK_GRANULES / g * g + g
  {
    DivMod(HBLK_GRANULES, g);
  }

  // Widening does not change how many objects a block holds, and no larger even size holds as many.
  lemma WidenedKeepsCount(g: nat)
    requires 0 < g <= MAXOBJGRANULES && g % 2 == 0
    ensures HBLK_GRANULES / g > 0
    ensures g <= Widened(g) <= MAXOBJGRANULES && Widened(g) % 2 == 0
    ensures HBLK_GRANULES / Widened(g) == HBLK_GRANULES / g
    ensures forall h: nat :: h % 2 == 0 && h > Widened(g) ==> HBLK_GRANULES / h < HBLK_GRANULES / g
  {
    Halves(g);
    var n := HBLK_GRANULES / g;
    var w := HBLK_GRANULES / n;
    assert Widened(g) == w / 2 * 2;
    hide Widened;
    WidenedBetween(n, g);
    AllFewer(n, w);
    HalfTwice(w);
  }

  lemma HalfTwice(w: nat)
    ensures w / 2 * 2 % 2 == 0
  {
  }

  lemma AllFewer(n: nat, w: nat)
    requires n > 0 && HBLK_GRANULES < w * n + n
    ensures forall h: nat :: h % 2 == 0 && h > w / 2 * 2 ==> HBLK_GRANULES / h < n
  {
    forall h: nat | h % 2 == 0 && h > w / 2 * 2 ensures HBLK_GRANULES / h < n {
      Fewer(n, w, h);
    }
  }

  // w, the n-th part of a block, is where the sizes with n objects end.
  lemma WidenedBetween(n: nat, g: nat)
    requires n >= 2 && n * g <= HBLK_GRANULES < n * g + g && g % 2 == 0
    ensures var w := HBLK_GRANULES / n;
            g <= w / 2 * 2 <= w <= MAXOBJGRANULES && HBLK_GRANULES / (w / 2 * 2) == n && HBLK_GRANULES < w * n + n
  {
    var w := HBLK_GRANULES / n;
    DivMod(HBLK_GRANULES, n);
    if w < g { Multiples(w, g, n); }
    Between(n, g, w / 2 * 2, w);
  }

  // If n objects of g granules fit and n + 1 do not, and n of w granules fit, the same holds between g and w.
  lemma Between(n: nat, g: nat, v: nat, w: nat)
    requires n >= 2 && n * g <= HBLK_GRANULES < n * g + g && g <= v <= w && w * n <= HBLK_GRANULES
    ensures HBLK_GRANULES / v == n && w <= MAXOBJGRANULES
  {
    if v < w { Multiples(v, w, n); }
    if g < v { Multiples(g, v, n); }
    Quotient(HBLK_GRANULES, v, n);
    if 2 < n { Multiples(2, n, w); }
  }

  lemma Fewer(n: nat, w: nat, h: nat)
    requires n > 0 && HBLK_GRANULES < w * n + n && h % 2 == 0 && h > w / 2 * 2
    ensures HBLK_GRANULES / h < n
  {
    Multiples(w, h, n);
    DivMod(HBLK_GRANULES, h);
    var m := HBLK_GRANULES / h;
    if n < m { Multiples(n, m, h); }
  }

  // No larger even size has as many objects in a block.
  ghost predicate Packed(g: nat) {
    && 0 < g <= MAXOBJGRANULES && g % 2 == 0
    && forall h: nat :: h % 2 == 0 && h > g ==> HBLK_GRANULES / h < HBLK_GRANULES / g
  }

  // The size that GC_extend_size_map settles on when it starts from g granules.
  function Settled(g: nat): nat
    requires g > 0
  {
    Halves(EvenSize(g));
    Widened(EvenSize(g))
  }

  // How many objects a block holds.
  function PerBlock(g: nat): nat {
    if g == 0 then 0 else HBLK_GRANULES / g
  }

  lemma SettledFits(g: nat)
    requires g > 0
    ensures EvenSize(g) > 0
    ensures Packed(Settled(g)) && PerBlock(Settled(g)) == PerBlock(EvenSize(g))
    ensures g <= MAXOBJGRANULES ==> Settled(g) >= g
  {
    Halves(EvenSize(g));
    WidenedKeepsCount(EvenSize(g));
  }

  // How much larger than needed the widened sizes can be.
  lemma WidenedBound(e: nat)
    requires 26 <= e <= MAXOBJGRANULES && e % 2 == 0
    ensures HBLK_GRANULES / e > 0
    ensures 2 * Widened(e) <= 3 * (e - 1) + 1
  {
    Halves(e);
    var n := HBLK_GRANULES / e;
    if n > 9 { Multiples(9, n, e); }
    if n == 2 { } else if n == 3 { } else if n == 4 { } else if n == 5 { }
    else if n == 6 { } else if n == 7 { } else if n == 8 { } else { assert n == 9; }
  }

  // An object of g granules holds j bytes and the extra one, and is not much larger than that.
  predicate Suits(g: nat, j: nat, extra: nat) {
    && g <= MAXOBJGRANULES && j + extra <= GRANULE_BYTES * g
    && (GRANULE_BYTES * g <= 2 * j + 8 || GRANULE_BYTES * g <= j + GRANULE_BYTES)
  }

  ghost predicate Sound(m: seq<nat>, extra: nat) {
    && |m| == MAXOBJBYTES + 1
    && forall j :: 0 <= j < |m| && m[j] != 0 ==> Suits(m[j], j, extra)
  }

  /****** filled sections ******/

  ghost predicate Filled(m: seq<nat>, lo: nat, hi: nat) {
    hi < |m| && forall j :: lo <= j <= hi ==> m[j] != 0
  }

  // Entry n is filled, and the one after it is not.
  ghost predicate LastFilled(m: seq<nat>, n: nat) {
    n < |m| && m[n] != 0 && (n + 1 < |m| ==> m[n + 1] == 0)
  }

  // A filled section that ends at n is at least n / 4 long.
  ghost predicate Long(m: seq<nat>, n: nat) {
    exists lo: nat :: lo <= n && Filled(m, lo, n) && 4 * (n - lo + 1) >= n
  }

  ghost predicate Sections(m: seq<nat>) {
    forall n: nat :: LastFilled(m, n) ==> Long(m, n)
  }

  function Overwritten(m: seq<nat>, low: nat, top: nat, g: nat): (r: seq<nat>)
    requires low <= top < |m|
    ensures |r| == |m| && forall j :: 0 <= j < |m| ==> r[j] == if low <= j <= top then g else m[j]
  {
    seq(|m|, j requires 0 <= j < |m| => if low <= j <= top then g else m[j])
  }

  lemma StillLong(m: seq<nat>, low: nat, base: nat, top: nat, g: nat)
    requires Sections(m) && base <= low <= top < |m| && g > 0
    requires base == low || Filled(m, base, low - 1)
    requires 4 * (top - base + 1) >= top
    ensures Sections(Overwritten(m, low, top, g))
  {
    var m2 := Overwritten(m, low, top, g);
    forall n: nat | LastFilled(m2, n) ensures Long(m2, n) {
      if n == top {
        assert Filled(m2, base, top);
      } else {
        assert LastFilled(m, n);
        var lo: nat :| lo <= n && Filled(m, lo, n) && 4 * (n - lo + 1) >= n;
        assert Filled(m2, lo, n);
      }
    }
  }

  // An empty entry is above those for the tiny sizes.
  lemma AboveTiny(m: seq<nat>, i: nat, extra: nat)
    requires extra <= 1 && i + extra <= MAXOBJBYTES && |m| == MAXOBJBYTES + 1 && m[i] == 0
    requires Filled(m, 0, GRANULE_BYTES * (TINY_FREELISTS - 1) - extra)
    ensures TINY_FREELISTS <= RoundedUpGranules(i, extra) <= MAXOBJGRANULES
  {
  }

  // Where the section starts that has been followed up to low.
  lemma SectionTo(m: seq<nat>, from: nat, low: nat) returns (lo: nat)
    requires Sections(m) && from < low < |m| && m[low] == 0 && m[from] != 0
    requires low == from + 1 || Filled(m, from + 1, low - 1)
    ensures lo < low && Filled(m, lo, low - 1) && 4 * (low - lo) >= low - 1
  {
    assert LastFilled(m, low - 1);
    lo :| lo <= low - 1 && Filled(m, lo, low - 1) && 4 * (low - 1 - lo + 1) >= low - 1;
  }

  // What becomes of the entries when those from low on get g granules.
  ghost predicate Fills(m: seq<nat>, extra: nat, i: nat, low: nat, g: nat) {
    && Packed(g) && extra <= 1 && low <= i <= GRANULE_BYTES * g - extra < |m|
    && Sound(Overwritten(m, low, GRANULE_BYTES * g - extra, g), extra)
    && Sections(Overwritten(m, low, GRANULE_BYTES * g - extra, g))
    && Filled(Overwritten(m, low, GRANULE_BYTES * g - extra, g), 0, GRANULE_BYTES * (TINY_FREELISTS - 1) - extra)
  }

  lemma HasLength(m: seq<nat>, extra: nat)
    requires Sound(m, extra)
    ensures |m| == MAXOBJBYTES + 1
  {
  }

  lemma LongEnough(i: nat, extra: nat, low: nat, base: nat, g: nat)
    requires extra <= 1 && base <= low <= i && i + extra <= GRANULE_BYTES * g && 0 < g <= MAXOBJGRANULES
    requires 4 * (low - base) >= low - 1 || base <= 12 * RoundedUpGranules(i, extra)
    ensures var top := GRANULE_BYTES * g - extra; low <= i <= top <= MAXOBJBYTES && 4 * (top - base + 1) >= top
  {
    assert RoundedUpGranules(i, extra) <= g;
    hide RoundedUpGranules;
  }

  lemma SoundOver(m: seq<nat>, extra: nat, i: nat, low: nat, g: nat)
    requires Sound(m, extra) && extra <= 1 && low <= i <= GRANULE_BYTES * g - extra <= MAXOBJBYTES
    requires g <= MAXOBJGRANULES && GRANULE_BYTES * g <= 2 * low + 8
    ensures Sound(Overwritten(m, low, GRANULE_BYTES * g - extra, g), extra)
  {
    hide Overwritten;
  }

  lemma FilledOver(m: seq<nat>, low: nat, top: nat, g: nat, hi: nat)
    requires Filled(m, 0, hi) && low <= top < |m| && g > 0
    ensures Filled(Overwritten(m, low, top, g), 0, hi)
  {
    hide Overwritten;
  }

  lemma AreFilled(m: seq<nat>, extra: nat, i: nat, low: nat, g: nat)
    requires Packed(g) && extra <= 1 && low <= i <= GRANULE_BYTES * g - extra < |m|
    requires Sound(Overwritten(m, low, GRANULE_BYTES * g - extra, g), extra)
    requires Filled(Overwritten(m, low, GRANULE_BYTES * g - extra, g), 0, GRANULE_BYTES * (TINY_FREELISTS - 1) - extra)
    ensures g > 0
    ensures Sections(Overwritten(m, low, GRANULE_BYTES * g - extra, g)) ==> Fills(m, extra, i, low, g)
  {
    hide Sound, Sections, Filled, Overwritten;
  }

  lemma Extended(m: seq<nat>, extra: nat, i: nat, low: nat, base: nat, g: nat)
    requires extra <= 1 && i + extra <= MAXOBJBYTES && low <= i
    requires Sound(m, extra) && Sections(m) && Filled(m, 0, GRANULE_BYTES * (TINY_FREELISTS - 1) - extra)
    requires Starts(i, low, g, extra)
    requires base <= low && (base == low || Filled(m, base, low - 1))
    requires 4 * (low - base) >= low - 1 || base <= 12 * RoundedUpGranules(i, extra)
    ensures Fills(m, extra, i, low, Settled(g))
  {
    hide Sound, Sections, Filled, Overwritten, Settled, RoundedUpGranules, Packed, Fills, Suits;
    SettledFits(g);
    SizeBound(i, low, g, extra);
    HasLength(m, extra);
    var top := GRANULE_BYTES * Settled(g) - extra;
    LongEnough(i, extra, low, base, Settled(g));
    SoundOver(m, extra, i, low, Settled(g));
    FilledOver(m, low, top, Settled(g), GRANULE_BYTES * (TINY_FREELISTS - 1) - extra);
    AreFilled(m, extra, i, low, Settled(g));
    StillLong(m, low, base, top, Settled(g));
  }

  lemma FillsMean(m: seq<nat>, extra: nat, i: nat, low: nat, g: nat)
    requires Fills(m, extra, i, low, g)
    ensures Packed(g) && g > 0 && low <= i <= GRANULE_BYTES * g - extra < |m|
    ensures var r := Overwritten(m, low, GRANULE_BYTES * g - extra, g);
            && r[i] == g && (forall j :: 0 <= j < |m| ==> (m[j] != 0 ==> r[j] != 0) && (r[j] != m[j] ==> r[j] == g))
            && Sound(r, extra) && Sections(r) && Filled(r, 0, GRANULE_BYTES * (TINY_FREELISTS - 1) - extra)
  {
    hide Sound, Sections, Filled;
  }

  // Where GC_extend_size_map starts for entry i: at entry low, with g granules.
  ghost predicate Starts(i: nat, low: nat, g: nat, extra: nat) {
    var orig := RoundedUpGranules(i, extra);
    var q := RoundedUpGranules(low, extra);
    && TINY_FREELISTS <= orig <= g
    && ((g == orig && low >= 12 * orig) || (low > 14 * orig && (g == q + q / 8 || g == orig)))
  }

  // The request in bytes, rounded up, less an eighth, or a quarter.
  function EighthLess(i: nat, extra: nat): nat {
    GRANULE_BYTES * RoundedUpGranules(i, extra) - GRANULE_BYTES * RoundedUpGranules(i, extra) / 8
  }

  function QuarterLess(i: nat, extra: nat): nat {
    GRANULE_BYTES * RoundedUpGranules(i, extra) - GRANULE_BYTES * RoundedUpGranules(i, extra) / 4
  }

  // The lowest entry that is filled together with entry i: the first empty one of the last quarter before it or, if
  // sizes are filled up to an eighth before it, the first after these.
  ghost predicate Lowest(m: seq<nat>, i: nat, extra: nat, low: nat) {
    && low < |m| && m[low] == 0 && EighthLess(i, extra) < |m|
    && var from := if m[EighthLess(i, extra)] == 0 then QuarterLess(i, extra) else EighthLess(i, extra) + 1;
       from <= low && forall j :: from <= j < low ==> m[j] != 0
  }

  // The size aimed at: that of the request but, if sizes close to it are filled already, at least one eighth more than
  // the lowest entry needs.
  function Aim(m: seq<nat>, i: nat, extra: nat, low: nat): nat
    requires EighthLess(i, extra) < |m|
  {
    var needed, least := RoundedUpGranules(i, extra), RoundedUpGranules(low, extra);
    if m[EighthLess(i, extra)] == 0 || needed > least + least / 8 then needed else least + least / 8
  }

  lemma IsLowest(m: seq<nat>, i: nat, extra: nat, low: nat)
    requires EighthLess(i, extra) < |m| && low < |m| && m[low] == 0
    requires var from := if m[EighthLess(i, extra)] == 0 then QuarterLess(i, extra) else EighthLess(i, extra) + 1;
             from <= low && (low == from || Filled(m, from, low - 1))
    ensures Lowest(m, i, extra, low)
    ensures var needed, least := RoundedUpGranules(i, extra), RoundedUpGranules(low, extra);
            Aim(m, i, extra, low) ==
            if m[EighthLess(i, extra)] == 0 || needed > least + least / 8 then needed else least + least / 8
  {
  }

  class Sizes {
    const extra: nat               // EXTRA_BYTES
    const sizes: array<nat>        // GC_size_map

    ghost predicate Valid()
      reads sizes
    {
      && extra <= 1 && sizes.Length == MAXOBJBYTES + 1
      && Sound(sizes[..], extra)
      && Sections(sizes[..])
      && Filled(sizes[..], 0, GRANULE_BYTES * (TINY_FREELISTS - 1) - extra)
    }

    // GC_init_size_map
    constructor (extra: nat)
      requires extra <= 1
      ensures Valid() && this.extra == extra && fresh(sizes) && sizes[0] == 1
      ensures forall j :: 0 < j < sizes.Length ==>
                sizes[j] == if j + extra <= GRANULE_BYTES * (TINY_FREELISTS - 1) then RoundedUpGranules(j, extra) else 0
    {
      this.extra := extra;
      sizes := new nat[MAXOBJBYTES + 1](i => 0);
      new;
      sizes[0] := 1;
      var i := 1;
      while i <= GRANULE_BYTES * (TINY_FREELISTS - 1) - extra
        invariant 1 <= i <= GRANULE_BYTES * (TINY_FREELISTS - 1) - extra + 1
        invariant Sound(sizes[..], extra) && Filled(sizes[..], 0, i - 1)
        invariant forall j :: i <= j < sizes.Length ==> sizes[j] == 0
        invariant sizes[0] == 1 && forall j :: 0 < j < i ==> sizes[j] == RoundedUpGranules(j, extra)
      {
        sizes[i] := RoundedUpGranules(i, extra);
        assert sizes[i] < TINY_FREELISTS;
        i := i + 1;
      }
      assert forall n: nat :: LastFilled(sizes[..], n) ==> n == i - 1;
      assert Long(sizes[..], i - 1);
    }

    // The first empty entry at or after k; there is one at limit.
    method FirstEmpty(k: nat, limit: nat) returns (low: nat)
      requires k <= limit < sizes.Length && sizes[limit] == 0
      ensures k <= low <= limit && sizes[low] == 0
      ensures low == k || Filled(sizes[..], k, low - 1)
    {
      low := k;
      while sizes[low] != 0
        invariant k <= low <= limit
        invariant low == k || Filled(sizes[..], k, low - 1)
        decreases limit - low
      {
        low := low + 1;
      }
    }

    method Fill(low: nat, top: nat, g: nat)
      requires low <= top < sizes.Length
      modifies sizes
      ensures sizes[..] == Overwritten(old(sizes[..]), low, top, g)
    {
      ghost var m := sizes[..];
      var j := low;
      while j <= top
        invariant low <= j <= top + 1
        invariant sizes[..] == if j == low then m else Overwritten(m, low, j - 1, g)
      {
        sizes[j] := g;
        j := j + 1;
      }
    }

    // GC_extend_size_map: fill in entry i, and some others around it.  The size is the largest even one of which as
    // many objects fit a block as of the size aimed at.
    method Extend(i: nat) returns (ghost low: nat)
      requires Valid() && i <= MAXOBJBYTES - extra && sizes[i] == 0
      modifies sizes
      ensures Valid() && Packed(sizes[i])
      ensures forall j :: 0 <= j < sizes.Length && old(sizes[j]) != 0 ==> sizes[j] != 0
      ensures forall j :: 0 <= j < sizes.Length && sizes[j] != old(sizes[j]) ==> sizes[j] == sizes[i]
      ensures Lowest(old(sizes[..]), i, extra, low) && low <= i <= GRANULE_BYTES * sizes[i] - extra < sizes.Length
      ensures PerBlock(sizes[i]) == PerBlock(EvenSize(Aim(old(sizes[..]), i, extra, low)))
      ensures sizes[..] == Overwritten(old(sizes[..]), low, GRANULE_BYTES * sizes[i] - extra, sizes[i])
    {
      hide *;
      ghost var m := sizes[..];
      var first, granules;
      ghost var base;
      first, granules, base := Start(i);
      low := first;
      SettledFits(granules);
      Extended(m, extra, i, first, base, granules);
      granules := Settled(granules);
      FillsMean(m, extra, i, first, granules);
      Fill(first, GRANULE_BYTES * granules - extra, granules);
      IsValid();
    }

    lemma IsValid()
      requires extra <= 1 && sizes.Length == MAXOBJBYTES + 1 && Sound(sizes[..], extra) && Sections(sizes[..])
      requires Filled(sizes[..], 0, GRANULE_BYTES * (TINY_FREELISTS - 1) - extra)
      ensures Valid()
    {
    }

    // The lowest entry to fill, and the size aimed at; what lies between base and that entry is filled already.
    method Start(i: nat) returns (low: nat, granules: nat, ghost base: nat)
      requires Valid() && i <= MAXOBJBYTES - extra && sizes[i] == 0
      ensures extra <= 1 && Lowest(sizes[..], i, extra, low) && low <= i
      ensures granules == Aim(sizes[..], i, extra, low) > 0
      ensures Starts(i, low, granules, extra) && base <= low && (base == low || Filled(sizes[..], base, low - 1))
      ensures 4 * (low - base) >= low - 1 || base <= 12 * RoundedUpGranules(i, extra)
      ensures Sound(sizes[..], extra) && Sections(sizes[..])
      ensures Filled(sizes[..], 0, GRANULE_BYTES * (TINY_FREELISTS - 1) - extra) && sizes.Length == MAXOBJBYTES + 1
    {
      hide Sound, Sections, Filled, RoundedUpGranules, Lowest, Aim;
      ghost var m := sizes[..];
      var origGranules := RoundedUpGranules(i, extra);
      granules := origGranules;
      var bytes := GRANULE_BYTES * granules;
      var smaller, muchSmaller := bytes - bytes / 8, bytes - bytes / 4;
      base := muchSmaller;
      AboveTiny(m, i, extra);
      if sizes[smaller] == 0 {
        low := FirstEmpty(muchSmaller, smaller);
      } else {
        low := FirstEmpty(smaller + 1, i);
        base := SectionTo(m, smaller, low);
        granules := RoundedUpGranules(low, extra);
        granules := granules + granules / 8;
        if granules < origGranules { granules := origGranules; }
      }
      IsLowest(m, i, extra, low);
    }

    // The part of GC_generic_malloc_inner that finds the size for a small object: an empty entry is filled, and
    // then the second look finds it filled.
    method Lookup(lb: nat) returns (g: nat)
      requires Valid() && lb <= MAXOBJBYTES - extra
      modifies sizes
      ensures Valid()
      ensures g > 0 && Suits(g, lb, extra) && g == sizes[lb]
      ensures old(sizes[lb]) != 0 ==> sizes[..] == old(sizes[..])
      decreases sizes[lb] == 0
    {
      g := sizes[lb];
      if g == 0 {
        ghost var low := Extend(lb);
        g := Lookup(lb);
      }
    }
  }

  // The sizes that GC_extend_size_map starts from lead to sizes that suit all the entries it fills.
  lemma SizeBound(i: nat, low: nat, g: nat, extra: nat)
    requires extra <= 1 && i + extra <= MAXOBJBYTES && low <= i && Starts(i, low, g, extra)
    ensures Settled(g) <= MAXOBJGRANULES
    ensures GRANULE_BYTES * Settled(g) <= 2 * low + 8
    ensures i + extra <= GRANULE_BYTES * Settled(g)
  {
    SettledFits(g);
    WidenedBound(EvenSize(g));
  }
}
