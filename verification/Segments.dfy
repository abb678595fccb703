/** Registering the writable segments of the process as roots (dyn_load.c, the variant that reads /proc/self/maps):
 *  the collector's own memory is sorted, and taken out of every segment.
 */
module Segments {
  import opened Ranges

  // A stretch of memory that the collector obtained from the system.
  datatype Sect = Sect(start: nat, bytes: nat) {
    function End(): nat { start + bytes }
  }

  ghost predicate StartsDiffer(s: seq<Sect>) {
    forall i, j :: 0 <= i < j < |s| ==> s[i].start != s[j].start
  }

  ghost predicate Sorted(s: seq<Sect>) {
    forall i, j :: 0 <= i < j < |s| ==> s[i].start < s[j].start
  }

  // Different stretches have no bytes in common, and none is empty.
  ghost predicate Apart(s: seq<Sect>) {
    && (forall i :: 0 <= i < |s| ==> s[i].bytes > 0)
    && (forall i, j :: 0 <= i < |s| && 0 <= j < |s| && i != j ==> s[i].End() <= s[j].start || s[j].End() <= s[i].start)
  }

  ghost predicate Own(s: seq<Sect>, x: nat) {
    exists i :: 0 <= i < |s| && s[i].start <= x < s[i].End()
  }

  ghost predicate Permuted(s: seq<Sect>, t: seq<Sect>) {
    multiset(s) == multiset(t)
  }

  // Two neighbours change places.
  function Swapped(s: seq<Sect>, i: nat): (t: seq<Sect>)
    requires i + 1 < |s|
    ensures |t| == |s|
  {
    s[..i] + [s[i + 1], s[i]] + s[i + 2..]
  }

  lemma SwapPermutes(s: seq<Sect>, i: nat)
    requires i + 1 < |s|
    ensures Permuted(s, Swapped(s, i))
  {
    assert s == s[..i] + [s[i], s[i + 1]] + s[i + 2..];
    assert Swapped(s, i) == s[..i] + [s[i + 1], s[i]] + s[i + 2..];
    hide Swapped;
    PartsPermute(s[..i], s[i], s[i + 1], s[i + 2..]);
  }

  lemma PartsPermute(x: seq<Sect>, a: Sect, b: Sect, y: seq<Sect>)
    ensures multiset(x + [a, b] + y) == multiset(x + [b, a] + y)
  {
  }

  lemma DistinctSwap(s: seq<Sect>, i: nat)
    requires i + 1 < |s| && StartsDiffer(s)
    ensures StartsDiffer(Swapped(s, i))
  {
    var t := Swapped(s, i);
    assert forall k :: 0 <= k < |t| ==> t[k] == s[if k == i then i + 1 else if k == i + 1 then i else k];
  }

  // Sorted but for place k, which is smaller than all after it.
  ghost predicate SortedBut(s: seq<Sect>, n: nat, k: nat)
    requires k < n <= |s|
  {
    && (forall i, j :: 0 <= i < j < n && i != k && j != k ==> s[i].start < s[j].start)
    && (forall j :: k < j < n ==> s[k].start < s[j].start)
  }

  lemma SwapSorts(s: seq<Sect>, n: nat, k: nat)
    requires 0 < k < n <= |s| && SortedBut(s, n, k) && s[k - 1].start > s[k].start
    ensures SortedBut(Swapped(s, k - 1), n, k - 1)
  {
    var t := Swapped(s, k - 1);
    assert forall i :: 0 <= i < |t| ==> t[i] == s[if i == k - 1 then k else if i == k then k - 1 else i];
  }

  // sort_heap_sects
  method Sort(base: array<Sect>)
    requires StartsDiffer(base[..])
    modifies base
    ensures Sorted(base[..]) && Permuted(old(base[..]), base[..])
  {
    var n, nsorted := base.Length, 1;
    while nsorted < n
      invariant n > 0 ==> 1 <= nsorted <= n
      invariant nsorted <= n ==> Sorted(base[..nsorted])
      invariant StartsDiffer(base[..]) && Permuted(old(base[..]), base[..])
    {
      while nsorted < n && base[nsorted - 1].start < base[nsorted].start
        invariant 1 <= nsorted <= n && Sorted(base[..nsorted])
      {
        assert forall i :: 0 <= i < nsorted ==> base[..nsorted][i] == base[i];
        nsorted := nsorted + 1;
      }
      if nsorted == n { break; }
      assert base[..][nsorted - 1].start > base[..][nsorted].start;
      Insert(base, nsorted);
      nsorted := nsorted + 1;
    }
    assert base[..] == if nsorted <= n then base[..nsorted] else [];
  }

  // The inner loop: the element after the first n is moved down to its place.
  method Insert(base: array<Sect>, n: nat)
    requires 0 < n < base.Length && Sorted(base[..n]) && StartsDiffer(base[..])
    modifies base
    ensures Sorted(base[..n + 1]) && StartsDiffer(base[..]) && Permuted(old(base[..]), base[..])
  {
    hide SortedBut, Sorted, StartsDiffer, Permuted, Swapped;
    StartBut(base[..], n);
    var i: int := n - 1;
    while i >= 0 && base[i].start > base[i + 1].start
      invariant -1 <= i < n && SortedBut(base[..], n + 1, i + 1)
      invariant StartsDiffer(base[..]) && Permuted(old(base[..]), base[..])
    {
      ghost var s := base[..];
      DistinctSwap(s, i);
      SwapPermutes(s, i);
      PermutedTrans(old(base[..]), s, Swapped(s, i));
      SwapSorts(s, n + 1, i + 1);
      Swap(base, i);
      i := i - 1;
    }
    InPlace(base[..], n + 1, i + 1);
  }

  method Swap(base: array<Sect>, i: nat)
    requires i + 1 < base.Length
    modifies base
    ensures base[..] == Swapped(old(base[..]), i)
  {
    SwapIs(base[..], i);
    var tmp := base[i];
    base[i] := base[i + 1];
    base[i + 1] := tmp;
  }

  lemma SwapIs(s: seq<Sect>, i: nat)
    requires i + 1 < |s|
    ensures forall k :: 0 <= k < |s| ==>
              Swapped(s, i)[k] == if k == i then s[i + 1] else if k == i + 1 then s[i] else s[k]
  {
  }

  lemma StartBut(s: seq<Sect>, n: nat)
    requires 0 < n < |s| && Sorted(s[..n])
    ensures SortedBut(s, n + 1, n) && Permuted(s, s)
  {
    assert forall i :: 0 <= i < n ==> s[..n][i] == s[i];
  }

  lemma PermutedTrans(s: seq<Sect>, t: seq<Sect>, u: seq<Sect>)
    requires Permuted(s, t) && Permuted(t, u)
    ensures Permuted(s, u)
  {
  }

  lemma InPlace(s: seq<Sect>, n: nat, k: nat)
    requires k < n <= |s| && SortedBut(s, n, k) && StartsDiffer(s) && (k > 0 ==> !(s[k - 1].start > s[k].start))
    ensures Sorted(s[..n])
  {
    assert k > 0 ==> s[k - 1].start != s[k].start;
    forall i, j | 0 <= i < j < n ensures s[i].start < s[j].start {
      if j == k && i < k - 1 { assert s[i].start < s[k - 1].start; }
    }
  }

  /****** a segment without the collector's own memory ******/

  // What has been handed on of the part below at: all that is not the collector's own.
  ghost predicate Handed(own: seq<Sect>, start: nat, at: nat, end: nat, out: seq<Range>) {
    forall x: nat :: Covered(out, x) <==> start <= x < at && x < end && !Own(own, x)
  }

  // The stretches before the ith end at or below at.
  ghost predicate Behind(own: seq<Sect>, i: nat, at: nat) {
    i <= |own| && forall j :: 0 <= j < i ==> own[j].End() <= at
  }

  // Up to the next stretch there is none of the collector's memory.
  lemma Between(own: seq<Sect>, i: nat, at: nat, x: nat)
    requires Sorted(own) && Behind(own, i, at) && at <= x && (i < |own| ==> x < own[i].start)
    ensures !Own(own, x)
  {
    forall j | 0 <= j < |own| ensures !(own[j].start <= x < own[j].End()) {}
  }

  lemma HandOn(own: seq<Sect>, start: nat, at: nat, end: nat, out: seq<Range>, i: nat, to: nat)
    requires Sorted(own) && Behind(own, i, at) && Handed(own, start, at, end, out) && start <= at <= to <= end
    requires i < |own| ==> to <= own[i].start
    ensures Handed(own, start, to, end, out + [Range(at, to)])
  {
    forall x: nat ensures Covered(out + [Range(at, to)], x) <==> start <= x < to && x < end && !Own(own, x) {
      CoveredLast(out, Range(at, to), x);
      if at <= x < to { Between(own, i, at, x); }
    }
  }

  lemma Skip(own: seq<Sect>, start: nat, at: nat, end: nat, out: seq<Range>, i: nat)
    requires Handed(own, start, at, end, out) && i < |own| && own[i].start <= at <= own[i].End()
    ensures Handed(own, start, own[i].End(), end, out)
  {
    forall x: nat | at <= x < own[i].End() ensures Own(own, x) {}
  }

  lemma HandedNone(own: seq<Sect>, start: nat, end: nat)
    ensures Handed(own, start, start, end, [])
  {
  }

  lemma HandedAll(own: seq<Sect>, start: nat, at: nat, end: nat, out: seq<Range>)
    requires Handed(own, start, at, end, out)
    ensures at >= end ==> forall x: nat :: Covered(out, x) <==> start <= x < end && !Own(own, x)
  {
  }

  lemma BehindAll(own: seq<Sect>, k: nat, at: nat)
    requires own != [] && Sorted(own) && Apart(own) && (k == 0 || (k == |own| && at >= own[|own| - 1].End()))
    ensures Behind(own, k, at)
  {
  }

  // A segment that meets the stretches of memory from the least to the greatest.
  method AddAround(own: array<Sect>, start0: nat, end: nat) returns (out: seq<Range>)
    requires own.Length > 0 && Sorted(own[..]) && Apart(own[..]) && start0 < end
    requires start0 < own[own.Length - 1].End()
    ensures forall x: nat :: Covered(out, x) <==> start0 <= x < end && !Own(own[..], x)
    ensures forall r <- out :: r.start < r.end
  {
    hide Covered, Own;
    out := [];
    ghost var s := own[..];
    var start := start0;
    HandedNone(s, start0, end);
    var i := 0;
    while own[i].End() < start
      invariant i < own.Length && Behind(s, i, start)
      decreases own.Length - i
    {
      i := i + 1;
    }
    if own[i].start <= start {
      Skip(s, start0, start, end, out, i);
      start := own[i].End();
      i := i + 1;
    }
    while i < own.Length && own[i].start < end && start < end
      invariant i <= own.Length && start0 <= start && Behind(s, i, start)
      invariant Handed(s, start0, start, end, out) && (i < own.Length ==> start <= own[i].start)
      invariant forall r <- out :: r.start < r.end
    {
      if start < own[i].start {
        HandOn(s, start0, start, end, out, i, own[i].start);
        out := out + [Range(start, own[i].start)];
      }
      Skip(s, start0, own[i].start, end, out, i);
      start := own[i].End();
      i := i + 1;
    }
    if start < end {
      HandOn(s, start0, start, end, out, i, end);
      out := out + [Range(start, end)];
      HandedAll(s, start0, end, end, out);
    } else {
      HandedAll(s, start0, start, end, out);
    }
  }

  // The part of GC_register_map_entries for a writable segment that is no stack: the ranges handed to
  // GC_add_roots_inner cover the segment without the collector's own memory.
  method AddSegment(own: array<Sect>, start0: nat, end: nat) returns (out: seq<Range>)
    requires own.Length > 0 && Sorted(own[..]) && Apart(own[..]) && start0 < end
    ensures forall x: nat :: Covered(out, x) <==> start0 <= x < end && !Own(own[..], x)
    ensures forall r <- out :: r.start < r.end
  {
    var least, greatest := own[0].start, own[own.Length - 1].End();
    if end <= least || start0 >= greatest {
      hide Covered, Own;
      ghost var s, k := own[..], if end <= least then 0 else own.Length;
      assert k == 0 ==> s[k].start == least;
      HandedNone(s, start0, end);
      BehindAll(s, k, start0);
      HandOn(s, start0, start0, end, [], k, end);
      out := [] + [Range(start0, end)];
      HandedAll(s, start0, end, end, out);
    } else {
      out := AddAround(own, start0, end);
    }
  }
}
