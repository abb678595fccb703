/** Parts of the static data that are not roots (mark_rts.c): a table of address ranges, searched by halving. */
module Exclusions {
  import opened Ranges

  datatype Outcome = Done | Overlap | TooMany

  // Ascending, disjoint, none of them empty.
  ghost predicate Ordered(s: seq<Range>) {
    && (forall i :: 0 <= i < |s| ==> s[i].start < s[i].end)
    && (forall i, j :: 0 <= i < j < |s| ==> s[i].end <= s[j].start)
  }

  // The place of the first range that ends after x.
  ghost predicate FirstAfter(s: seq<Range>, x: nat, k: nat) {
    && k <= |s|
    && (forall i :: 0 <= i < k ==> s[i].end <= x)
    && (forall i :: k <= i < |s| ==> s[i].end > x)
  }

  // A range that does not meet the one at k, the first to end after its start, meets none.
  lemma MeetsFirst(s: seq<Range>, k: nat, r: Range)
    requires Ordered(s) && FirstAfter(s, r.start, k) && r.start < r.end
    ensures (k < |s| && s[k].start < r.end) <==> exists x: nat :: Within(r, x) && Covered(s, x)
  {
    if k < |s| && s[k].start < r.end {
      var x := if s[k].start > r.start then s[k].start else r.start;
      assert Within(s[k], x) && Within(r, x);
    }
    if x: nat :| Within(r, x) && Covered(s, x) {
      var i :| 0 <= i < |s| && Within(s[i], x);
      assert i >= k;
    }
  }

  lemma EndsAscend(s: seq<Range>, mid: nat)
    requires Ordered(s) && mid < |s|
    ensures forall i :: 0 <= i < mid ==> s[i].end <= s[mid].end
    ensures forall i :: mid < i < |s| ==> s[mid].end <= s[i].end
  {
  }

  lemma NoneAfter(s: seq<Range>, x: nat)
    requires s == []
    ensures FirstAfter(s, x, 0)
  {
  }

  lemma InBounds(s: seq<Range>, x: nat, k: nat)
    requires FirstAfter(s, x, k)
    ensures k <= |s|
  {
  }

  lemma Behind(s: seq<Range>, x: nat, k: nat)
    requires FirstAfter(s, x, k)
    ensures k < |s| <==> exists i :: 0 <= i < |s| && s[i].end > x
  {
    if k < |s| { assert s[k].end > x; }
  }

  // Some range starts at byte x.
  ghost predicate StartsAt(s: seq<Range>, x: nat) {
    exists i :: 0 <= i < |s| && s[i].start == x
  }

  lemma StartsAtNext(s: seq<Range>, k: nat, r: Range)
    requires Ordered(s) && FirstAfter(s, r.start, k) && r.start < r.end && (k < |s| ==> r.end <= s[k].start)
    ensures StartsAt(s, r.end) <==> k < |s| && s[k].start == r.end
  {
    if StartsAt(s, r.end) {
      var i :| 0 <= i < |s| && s[i].start == r.end;
      assert i >= k;
    }
  }

  lemma Inserted(s: seq<Range>, k: nat, r: Range)
    requires Ordered(s) && FirstAfter(s, r.start, k) && r.start < r.end
    requires k < |s| ==> r.end <= s[k].start
    ensures Ordered(s[..k] + [r] + s[k..])
    ensures forall x: nat :: Covered(s[..k] + [r] + s[k..], x) <==> Covered(s, x) || Within(r, x)
  {
    InsertedOrder(s, k, r);
    hide Ordered, FirstAfter;
    forall x: nat ensures Covered(s[..k] + [r] + s[k..], x) <==> Covered(s, x) || Within(r, x) {
      assert s == s[..k] + s[k..];
      CoveredBoth(s[..k], s[k..], x);
      CoveredBoth(s[..k] + [r], s[k..], x);
      CoveredBoth(s[..k], [r], x);
      CoveredOne(r, x);
    }
  }

  lemma InsertedOrder(s: seq<Range>, k: nat, r: Range)
    requires Ordered(s) && FirstAfter(s, r.start, k) && r.start < r.end
    requires k < |s| ==> r.end <= s[k].start
    ensures Ordered(s[..k] + [r] + s[k..])
  {
    var t := s[..k] + [r] + s[k..];
    assert forall i :: 0 <= i < |t| ==> t[i] == if i < k then s[i] else if i == k then r else s[i - 1];
  }

  lemma ExtendedBack(s: seq<Range>, k: nat, r: Range)
    requires Ordered(s) && FirstAfter(s, r.start, k) && r.start < r.end
    requires k < |s| && r.end == s[k].start
    ensures Ordered(s[k := Range(r.start, s[k].end)])
    ensures forall x: nat :: Covered(s[k := Range(r.start, s[k].end)], x) <==> Covered(s, x) || Within(r, x)
  {
    var t := s[k := Range(r.start, s[k].end)];
    forall x: nat ensures Covered(t, x) <==> Covered(s, x) || Within(r, x) {
      if Covered(s, x) {
        var i :| 0 <= i < |s| && Within(s[i], x);
        assert Within(t[i], x);
      }
      if Within(r, x) { assert Within(t[k], x); }
      if Covered(t, x) {
        var i :| 0 <= i < |t| && Within(t[i], x);
        assert i == k || t[i] == s[i];
      }
    }
  }

  /* What remains of a range */

  // The ranges handed on for [bottom, top): not empty, ascending, and together the bytes that are not covered.
  ghost predicate Remains(s: seq<Range>, bottom: nat, top: nat, out: seq<Range>) {
    && Ordered(out)
    && forall x: nat :: Covered(out, x) <==> bottom <= x < top && !Covered(s, x)
  }

  lemma RemainsStep(s: seq<Range>, bottom: nat, mid: nat, k: nat, out: seq<Range>)
    requires Ordered(s) && bottom <= mid && FirstAfter(s, mid, k) && k < |s| && Remains(s, bottom, mid, out)
    ensures var start := s[k].start;
            Remains(s, bottom, s[k].end, if start > mid then out + [Range(mid, start)] else out)
  {
    var start, end := s[k].start, s[k].end;
    var out2 := if start > mid then out + [Range(mid, start)] else out;
    assert Ordered(out2) by {
      forall i | 0 <= i < |out| ensures out[i].end <= mid {
        assert Within(out[i], out[i].end - 1);
        assert Covered(out, out[i].end - 1);
      }
    }
    forall x: nat ensures Covered(out2, x) <==> bottom <= x < end && !Covered(s, x) {
      CoveredLast(out, Range(mid, start), x);
      if mid <= x < start {
        FreeBetween(s, mid, k, x);
      } else if start <= x < end && mid <= x {
        assert Within(s[k], x);
      }
    }
  }

  lemma FreeBetween(s: seq<Range>, mid: nat, k: nat, x: nat)
    requires Ordered(s) && FirstAfter(s, mid, k) && mid <= x && (k < |s| ==> x < s[k].start)
    ensures !Covered(s, x)
  {
    forall i | 0 <= i < |s| ensures !Within(s[i], x) {
      if k < i { assert s[k].end <= s[i].start; }
    }
  }

  lemma RemainsLast(s: seq<Range>, bottom: nat, mid: nat, top: nat, k: nat, out: seq<Range>)
    requires Ordered(s) && bottom <= mid < top && FirstAfter(s, mid, k) && (k < |s| ==> s[k].start >= top)
    requires Remains(s, bottom, mid, out)
    ensures Remains(s, bottom, top, out + [Range(mid, top)])
  {
    var out2 := out + [Range(mid, top)];
    assert Ordered(out2) by {
      forall i | 0 <= i < |out| ensures out[i].end <= mid {
        assert Within(out[i], out[i].end - 1);
        assert Covered(out, out[i].end - 1);
      }
    }
    forall x: nat ensures Covered(out2, x) <==> bottom <= x < top && !Covered(s, x) {
      CoveredLast(out, Range(mid, top), x);
      if mid <= x < top { FreeBetween(s, mid, k, x); }
    }
  }

  // A last range that ends at or after the top: what remained below its end is what remains.
  lemma RemainsOver(s: seq<Range>, bottom: nat, mid: nat, top: nat, k: nat, out: seq<Range>)
    requires Ordered(s) && k < |s| && s[k].start < top <= mid == s[k].end && Remains(s, bottom, mid, out)
    ensures Remains(s, bottom, top, out)
  {
    forall x: nat | top <= x < mid ensures !Covered(out, x) {
      assert Within(s[k], x);
    }
  }

  class Table {
    const max: nat                 // MAX_EXCLUSIONS
    const table: array<Range>      // one place longer: a full table is shifted before it is found to be full
    var entries: nat

    ghost predicate Valid()
      reads this, table
    {
      && table.Length == max + 1 && max > 0
      && entries <= max && Ordered(table[..entries])
    }

    ghost predicate Excluded(x: nat)
      reads this, table
      requires Valid()
    {
      Covered(table[..entries], x)
    }

    constructor (max: nat)
      requires max > 0
      ensures Valid() && this.max == max && entries == 0 && fresh(table)
    {
      this.max := max;
      table := new Range[max + 1](i => Range(0, 0));
      entries := 0;
    }

    // GC_next_exclusion: the first range that ends after the address; entries if there is none.
    method Next(x: nat) returns (k: nat)
      requires Valid() && entries > 0
      ensures FirstAfter(table[..entries], x, k)
    {
      hide Ordered;
      var low, high := 0, entries - 1;
      while high > low
        invariant 0 <= low <= high < entries
        invariant forall i :: 0 <= i < low ==> table[i].end <= x
        invariant forall i :: high < i < entries ==> table[i].end > x
        invariant high < entries - 1 ==> table[high].end > x
      {
        var mid := (low + high) / 2;
        EndsAscend(table[..entries], mid);
        if table[mid].end <= x {
          assert forall i :: 0 <= i < mid ==> table[..entries][i].end <= table[mid].end;
          low := mid + 1;
        } else {
          assert forall i :: mid < i < entries ==> table[mid].end <= table[..entries][i].end;
          high := mid;
        }
      }
      k := if table[low].end <= x then entries else low;
    }

    // Make room at place k.  beyond says whether the place behind the source's table is written.
    method Shift(k: nat) returns (ghost beyond: bool)
      requires Valid() && k <= entries
      modifies table
      ensures table[..k] == old(table[..k])
      ensures table[k + 1..entries + 1] == old(table[k..entries])
      ensures beyond <==> k < entries == max
    {
      hide Ordered;
      beyond := false;
      ghost var s := table[..entries];
      var i := entries;
      while i > k
        invariant k <= i <= entries && entries == old(entries)
        invariant forall j :: 0 <= j < i ==> table[j] == s[j]
        invariant forall j :: i <= j < entries ==> table[j + 1] == s[j]
        invariant beyond <==> i < entries == max
      {
        table[i] := table[i - 1];
        beyond := beyond || i == max;
        i := i - 1;
      }
      assert table[..k] == s[..k];
      assert table[k + 1..entries + 1] == s[k..];
    }

    // GC_exclude_static_roots_inner.  It finds out too late that the table is full: if the new range is not the last,
    // the ranges behind it have been shifted before, the last of them beyond the table.
    method Exclude(start: nat, finish: nat) returns (r: Outcome, ghost beyond: bool)
      requires Valid() && start < finish
      modifies this, table
      ensures r == Overlap <==> exists x: nat :: Within(Range(start, finish), x) && old(Excluded(x))
      ensures r == TooMany <==> r != Overlap && old(entries) == max && !StartsAt(old(table[..entries]), finish)
      ensures beyond <==> r == TooMany && exists i :: 0 <= i < old(entries) && old(table[..entries])[i].end > start
      ensures r == Done ==> Valid() && forall x: nat :: Excluded(x) <==> old(Excluded(x)) || start <= x < finish
      ensures r == Done ==> entries == old(entries) + if StartsAt(old(table[..entries]), finish) then 0 else 1
    {
      hide Ordered, FirstAfter, Covered, StartsAt, Within;
      beyond := false;
      ghost var s, range := table[..entries], Range(start, finish);
      var next := entries;
      if entries > 0 { next := Next(start); } else { NoneAfter(s, start); }
      MeetsFirst(s, next, range);
      Behind(s, start, next);
      assert forall x: nat :: Covered(s, x) == old(Excluded(x));
      if next < entries && table[next].start < finish {
        r := Overlap;
      } else {
        StartsAtNext(s, next, range);
        if next < entries && table[next].start == finish {
          ExtendAt(next, start);
          r := Done;
        } else {
          r, beyond := InsertAt(next, start, finish);
        }
      }
    }

    // The range ends where the next one starts, which is extended.
    method ExtendAt(next: nat, start: nat)
      requires Valid() && next < entries && FirstAfter(table[..entries], start, next)
      requires start < table[next].start
      modifies table
      ensures Valid()
      ensures forall x: nat :: Excluded(x) <==> old(Excluded(x)) || start <= x < old(table[next].start)
    {
      hide Ordered, FirstAfter, Covered;
      ghost var s, range := table[..entries], Range(start, table[next].start);
      ExtendedBack(s, next, range);
      table[next] := Range(start, table[next].end);
      assert table[..entries] == s[next := Range(start, s[next].end)];
      assert forall x: nat :: Covered(s, x) == old(Excluded(x));
    }

    // The range gets a place of its own, if there is one left.
    method InsertAt(next: nat, start: nat, finish: nat) returns (r: Outcome, ghost beyond: bool)
      requires Valid() && start < finish && FirstAfter(table[..entries], start, next)
      requires next < entries ==> finish <= table[next].start
      modifies this, table
      ensures r == if old(entries) == max then TooMany else Done
      ensures beyond <==> next < old(entries) == max
      ensures r == Done ==> Valid() && entries == old(entries) + 1
      ensures r == Done ==> forall x: nat :: Excluded(x) <==> old(Excluded(x)) || start <= x < finish
    {
      hide Ordered, FirstAfter, Covered;
      ghost var s, range := table[..entries], Range(start, finish);
      InBounds(s, start, next);
      Inserted(s, next, range);
      assert forall x: nat :: Covered(s, x) == old(Excluded(x));
      beyond := Shift(next);
      if entries == max {
        r := TooMany;
      } else {
        table[next] := Range(start, finish);
        entries := entries + 1;
        assert table[..next] == s[..next] && table[next + 1..entries] == s[next..];
        assert table[..entries] == table[..next] + [table[next]] + table[next + 1..entries];
        r := Done;
      }
    }

    // GC_push_conditional_with_exclusions: the ranges that are handed to GC_push_conditional, in that order.
    method PushConditional(bottom: nat, top: nat) returns (out: seq<Range>)
      requires Valid() && entries > 0
      ensures Ordered(out)
      ensures forall x: nat :: Covered(out, x) <==> bottom <= x < top && !Excluded(x)
    {
      out := [];
      var at := bottom;
      ghost var s := table[..entries];
      ghost var k := 0;
      while at < top
        invariant bottom <= at && Remains(s, bottom, at, out)
        invariant at > top && bottom < top ==> k < |s| && s[k].start < top && s[k].end == at
        invariant bottom >= top ==> at == bottom
        decreases top - at
      {
        var next := Next(at);
        if next == entries || table[next].start >= top {
          RemainsLast(s, bottom, at, top, next, out);
          out := out + [Range(at, top)];
          return;
        }
        RemainsStep(s, bottom, at, next, out);
        if table[next].start > at {
          out := out + [Range(at, table[next].start)];
        }
        at := table[next].end;
        k := next;
      }
      if at > top && bottom < top {
        RemainsOver(s, bottom, at, top, k, out);
      }
    }
  }

  // For a table of any size: max ranges are excluded, in ascending order, and then one below them.  This writes beyond
  // the table.
  method Overrun(max: nat) returns (t: Table, r: Outcome, ghost beyond: bool)
    requires max > 0
    ensures t.max == max && r == TooMany && beyond
  {
    t := new Table(max);
    var i := 0;
    while i < max
      invariant i <= max && fresh(t) && fresh(t.table) && t.max == max
      invariant t.Valid() && t.entries == i
      invariant forall x: nat :: t.Excluded(x) ==> 10 <= x < 10 * i + 6
    {
      assert !t.Excluded(10 * i + 15);
      NoStart(t.table[..t.entries], 10 * i + 15);
      var done;
      ghost var b;
      done, b := t.Exclude(10 * i + 10, 10 * i + 15);
      i := i + 1;
    }
    ghost var s := t.table[..t.entries];
    assert !t.Excluded(5);
    NoStart(s, 5);
    assert Within(s[0], s[0].start) && t.Excluded(s[0].start) && s[0].end > 1;
    r, beyond := t.Exclude(1, 5);
  }

  lemma NoStart(s: seq<Range>, x: nat)
    requires Ordered(s) && !Covered(s, x)
    ensures !StartsAt(s, x)
  {
    forall i | 0 <= i < |s| ensures s[i].start != x {
      assert Within(s[i], s[i].start);
    }
  }
}
