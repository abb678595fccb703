/** Scanning an area described by its length, byte by byte (GC_mark_from in mark.c): which positions of the area
 *  are looked at for a pointer, however the area is taken apart on the way.
 *
 *  A pointer may be stored at any position that is a multiple of ALIGNMENT, which can be smaller than a word; it
 *  then reaches over the place where a range is taken apart.
 */
module RangeScan {
  const WORD: nat := 8
  const SPLIT_BYTES: nat := 128 * WORD   // SPLIT_RANGE_WORDS
  const SHARE_BYTES: nat := 2048

  // A mark stack entry with a length descriptor.
  datatype Range = Range(start: nat, descr: nat)

  // What the scan depends on: the words at all positions, ALIGNMENT, and which words can be pointers into the heap.
  datatype Memory = Memory(word: nat -> int, alignment: nat, least: int, greatest: int) {
    predicate Valid() {
      alignment == 1 || alignment == 2 || alignment == 4 || alignment == 8
    }

    predicate Aligned(p: int)
      requires Valid()
    {
      match alignment
      case 1 => true
      case 2 => p % 2 == 0
      case 4 => p % 4 == 0
      case _ => p % 8 == 0
    }

    // The word at position p may be a pointer.
    predicate Plausible(p: nat) {
      least <= word(p) < greatest
    }

    // Ranges start at aligned addresses, and at least one word fits.
    predicate Proper(r: Range)
      requires Valid()
    {
      Aligned(r.start) && Aligned(r.descr) && r.descr >= WORD
    }

    // A word stored at position p lies in the range.
    predicate Position(r: Range, p: nat)
      requires Valid()
    {
      Aligned(p) && r.start <= p && p + WORD <= r.start + r.descr
    }

    // How often a plain scan of the range pushes what is at position p.
    function Times(r: Range, p: nat): nat
      requires Valid()
    {
      if Position(r, p) && Plausible(p) then 1 else 0
    }

    function Pending(pieces: seq<Range>, p: nat): nat
      requires Valid()
    {
      if pieces == [] then 0 else Pending(pieces[..|pieces| - 1], p) + Times(pieces[|pieces| - 1], p)
    }
  }

  function Count(s: seq<nat>, p: nat): nat {
    multiset(s)[p]
  }

  // No aligned position lies strictly between one and the next.
  lemma NextAligned(m: Memory, p: int, q: int)
    requires m.Valid() && m.Aligned(p) && m.Aligned(q)
    ensures m.Aligned(p + m.alignment) && m.Aligned(p - m.alignment)
    ensures m.Aligned(p + q) && m.Aligned(p - q)
    ensures p < q ==> p + m.alignment <= q
  {
    match m.alignment
    case 1 =>
    case 2 => NextEven(p, q);
    case 4 => NextFourth(p, q);
    case _ => NextEighth(p, q);
  }

  lemma NextEven(p: int, q: int)
    requires p % 2 == 0 && q % 2 == 0
    ensures (p + 2) % 2 == 0 && (p - 2) % 2 == 0 && (p + q) % 2 == 0 && (p - q) % 2 == 0
    ensures p < q ==> p + 2 <= q
  {
    var u, v := p / 2, q / 2;
    assert p == 2 * u && q == 2 * v;
  }

  lemma NextFourth(p: int, q: int)
    requires p % 4 == 0 && q % 4 == 0
    ensures (p + 4) % 4 == 0 && (p - 4) % 4 == 0 && (p + q) % 4 == 0 && (p - q) % 4 == 0
    ensures p < q ==> p + 4 <= q
  {
    var u, v := p / 4, q / 4;
    assert p == 4 * u && q == 4 * v;
  }

  lemma NextEighth(p: int, q: int)
    requires p % 8 == 0 && q % 8 == 0
    ensures (p + 8) % 8 == 0 && (p - 8) % 8 == 0 && (p + q) % 8 == 0 && (p - q) % 8 == 0
    ensures p < q ==> p + 8 <= q
  {
    var u, v := p / 8, q / 8;
    assert p == 8 * u && q == 8 * v;
  }

  lemma WordAligned(m: Memory, w: int)
    requires m.Valid()
    ensures m.Aligned(WORD * w)
  {
    assert WORD * w % 8 == 0;
    assert WORD * w == 2 * (4 * w) == 4 * (2 * w);
  }

  /****** one range ******/

  lemma CountPush(s: seq<nat>, x: nat, p: nat)
    ensures Count(s + [x], p) == Count(s, p) + if x == p then 1 else 0
  {
    assert (s + [x])[..|s|] == s;
  }

  // The first loop of the range scan: from the end, look for a word worth putting off.
  method FindDeferred(m: Memory, r: Range) returns (found: bool, limit: int)
    requires m.Valid() && m.Proper(r)
    ensures m.Aligned(limit) && limit < r.start + r.descr
    ensures found ==>
              limit >= 0 - m.alignment && m.Position(r, limit + m.alignment) && m.Plausible(limit + m.alignment)
    ensures forall p: nat :: m.Position(r, p) && m.Plausible(p) ==> found && p <= limit + m.alignment
  {
    limit := r.start + r.descr - WORD;
    found := false;
    NextAligned(m, r.start, r.descr);
    NextAligned(m, r.start + r.descr, WORD);
    while !found && r.start <= limit
      invariant m.Aligned(limit) && limit < r.start + r.descr
      invariant limit >= r.start - m.alignment
      invariant found ==>
                  limit >= 0 - m.alignment && m.Position(r, limit + m.alignment) && m.Plausible(limit + m.alignment)
      invariant forall p: nat :: m.Position(r, p) && m.Plausible(p) ==>
                  p <= limit || (found && p == limit + m.alignment)
      decreases limit, !found
    {
      assert m.Position(r, limit);
      found := m.Plausible(limit);
      forall p: nat | m.Aligned(p) && p < limit ensures p <= limit - m.alignment {
        NextAligned(m, p, limit);
      }
      NextAligned(m, limit, limit);
      limit := limit - m.alignment;
    }
  }

  // The second: upwards, to the word that was put off.
  method ScanUpwards(m: Memory, r: Range, limit: int) returns (pushed: seq<nat>)
    requires m.Valid() && m.Proper(r) && m.Aligned(limit)
    requires limit >= 0 - m.alignment && m.Position(r, limit + m.alignment)
    ensures forall p: nat :: Count(pushed, p) == if p < limit + m.alignment then m.Times(r, p) else 0
  {
    pushed := [];
    var current: int := r.start;
    ghost var deferred: nat := limit + m.alignment;
    while current <= limit
      invariant m.Aligned(current) && r.start <= current <= deferred
      invariant forall p: nat :: Count(pushed, p) == if p < current then m.Times(r, p) else 0
    {
      NextAligned(m, current, limit);
      NextAligned(m, current, deferred);
      ghost var before := pushed;
      if m.Plausible(current) {
        pushed := pushed + [current];
      }
      forall p: nat ensures Count(pushed, p) == if p < current + m.alignment then m.Times(r, p) else 0 {
        if m.Aligned(p) && current < p { NextAligned(m, current, p); }
        assert Count(before, p) == if p < current then m.Times(r, p) else 0;
      }
      current := current + m.alignment;
    }
    NextAligned(m, limit, current);
  }

  // The loops that scan a range: from the end down to a plausible word, which is put off; then upwards; last comes
  // the word that was put off.  The positions whose words are handed to PUSH_CONTENTS, in that order.
  method ScanRange(m: Memory, r: Range) returns (pushed: seq<nat>)
    requires m.Valid() && m.Proper(r)
    ensures forall p: nat :: Count(pushed, p) == m.Times(r, p)
  {
    var found, limit := FindDeferred(m, r);
    pushed := [];
    if found {
      ghost var deferred: nat := limit + m.alignment;
      var up := ScanUpwards(m, r, limit);
      pushed := up + [limit + m.alignment];
      forall p: nat ensures Count(pushed, p) == m.Times(r, p) {
        CountPush(up, deferred, p);
      }
    }
  }

  /****** taking a long range apart ******/

  lemma PendingAppend(m: Memory, a: seq<Range>, b: seq<Range>, p: nat)
    requires m.Valid()
    ensures m.Pending(a + b, p) == m.Pending(a, p) + m.Pending(b, p)
  {
    if b == [] {
      assert a + b == a;
    } else {
      var l := |b| - 1;
      assert (a + b)[..|a + b| - 1] == a + b[..l];
      PendingAppend(m, a, b[..l], p);
    }
  }

  lemma PendingOne(m: Memory, r: Range, p: nat)
    requires m.Valid()
    ensures m.Pending([r], p) == m.Times(r, p)
  {
  }

  // One piece of several is replaced by others.
  lemma PendingReplace(m: Memory, pieces: seq<Range>, i: nat, repl: seq<Range>, p: nat)
    requires m.Valid() && i < |pieces|
    ensures m.Pending(pieces[..i] + repl + pieces[i + 1..], p) == m.Pending(pieces, p) - m.Times(pieces[i],
              p) + m.Pending(repl, p)
  {
    hide Memory.Pending, Memory.Times;
    PendingOne(m, pieces[i], p);
    PendingAppend(m, pieces[..i] + repl, pieces[i + 1..], p);
    PendingAppend(m, pieces[..i], repl, p);
    assert pieces == pieces[..i] + [pieces[i]] + pieces[i + 1..];
    PendingAppend(m, pieces[..i] + [pieces[i]], pieces[i + 1..], p);
    PendingAppend(m, pieces[..i], [pieces[i]], p);
  }

  // The first 127 words, with the bytes needed for words that reach over the end, and the rest: every position
  // is in one of the two.
  lemma SplitOnce(m: Memory, r: Range, p: nat)
    requires m.Valid() && m.Proper(r) && r.descr >= SPLIT_BYTES
    ensures var first := Range(r.start, SPLIT_BYTES - WORD + WORD - m.alignment);
            var rest := Range(r.start + SPLIT_BYTES - WORD, r.descr - (SPLIT_BYTES - WORD));
            && m.Proper(first) && m.Proper(rest)
            && m.Times(r, p) == m.Times(first, p) + m.Times(rest, p)
  {
    NextAligned(m, r.start, r.descr);
    NextAligned(m, r.start, SPLIT_BYTES - WORD);
    NextAligned(m, r.descr, SPLIT_BYTES - WORD);
    NextAligned(m, SPLIT_BYTES, SPLIT_BYTES);
    if m.Aligned(p) && p < r.start + SPLIT_BYTES - WORD {
      NextAligned(m, p, r.start + SPLIT_BYTES - WORD);
    }
  }

  // Two halves that share one word: the position of that word is in both, every other one in one of the two.
  lemma SplitShared(m: Memory, r: Range, p: nat)
    requires m.Valid() && m.Proper(r) && r.descr > SHARE_BYTES
    ensures var half := r.descr / 2 / WORD * WORD;
            var low, high := Range(r.start, half + WORD), Range(r.start + half, r.descr - half);
            && m.Proper(low) && m.Proper(high)
            && m.Times(low, p) + m.Times(high, p) ==
               m.Times(r, p) + if p == r.start + half && m.Plausible(p) then 1 else 0
  {
    var k := r.descr / 2 / WORD;
    assert r.descr / 2 / WORD * WORD == WORD * k;
    NextAligned(m, r.start, r.descr);
    WordAligned(m, k);
    WordAligned(m, k + 1);
    assert WORD * k + WORD == WORD * (k + 1);
    NextAligned(m, r.start, WORD * k);
    NextAligned(m, r.descr, WORD * k);
  }

  // A bound on the work that is left: halving a range shares a word, and still makes it smaller.
  function Weight(r: Range): nat {
    if r.descr < SPLIT_BYTES then 1 else r.descr - WORD - 1
  }

  function Total(pieces: seq<Range>): nat {
    if pieces == [] then 0 else Total(pieces[..|pieces| - 1]) + Weight(pieces[|pieces| - 1])
  }

  lemma TotalAppend(a: seq<Range>, b: seq<Range>)
    ensures Total(a + b) == Total(a) + Total(b)
  {
    if b == [] {
      assert a + b == a;
    } else {
      var l := |b| - 1;
      assert (a + b)[..|a + b| - 1] == a + b[..l];
      TotalAppend(a, b[..l]);
    }
  }

  lemma TotalReplace(pieces: seq<Range>, i: nat, repl: seq<Range>)
    requires i < |pieces|
    ensures Total(pieces[..i] + repl + pieces[i + 1..]) == Total(pieces) - Weight(pieces[i]) + Total(repl)
  {
    TotalAppend(pieces[..i] + repl, pieces[i + 1..]);
    TotalAppend(pieces[..i], repl);
    assert pieces == pieces[..i] + [pieces[i]] + pieces[i + 1..];
    TotalAppend(pieces[..i] + [pieces[i]], pieces[i + 1..]);
    TotalAppend(pieces[..i], [pieces[i]]);
  }

  // What one round does with the entry it takes: the entries it leaves in its place, the range it scans if it
  // scans one, and the place where it was halved.  Whether a long range is halved depends on whether other
  // markers may take the other half, and on the room on the stack.
  method Round(m: Memory, r: Range, share: bool) returns (left: seq<Range>, pushed: seq<nat>, halved: seq<nat>)
    requires m.Valid() && m.Proper(r)
    ensures forall q <- left :: m.Proper(q)
    ensures Total(left) < Weight(r)
    ensures forall p: nat :: Count(pushed, p) + m.Pending(left, p) ==
              m.Times(r, p) + if m.Plausible(p) then Count(halved, p) else 0
    ensures |left| == if r.descr < SPLIT_BYTES then 0 else if share && r.descr > SHARE_BYTES then 2 else 1
    ensures |halved| == (if |left| == 2 then 1 else 0) && (|left| == 2 ==> pushed == [])
    ensures |left| == 1 ==>
              left[0].start + left[0].descr == r.start + r.descr && left[0].descr + SPLIT_BYTES == r.descr + WORD
  {
    left, pushed, halved := [], [], [];
    if r.descr >= SPLIT_BYTES {
      if share && r.descr > SHARE_BYTES {
        var half := r.descr / 2 / WORD * WORD;
        var low, high := Range(r.start, half + WORD), Range(r.start + half, r.descr - half);
        left, halved := [low, high], [r.start + half];
        SplitShared(m, r, 0);
        forall p: nat ensures m.Pending(left, p) == m.Times(r, p) + if m.Plausible(p) then Count(halved, p) else 0 {
          SplitShared(m, r, p);
          PendingAppend(m, [low], [high], p);
        }
        TotalAppend([low], [high]);
      } else {
        var rest := Range(r.start + SPLIT_BYTES - WORD, r.descr - (SPLIT_BYTES - WORD));
        SplitOnce(m, r, 0);
        pushed := ScanRange(m, Range(r.start, SPLIT_BYTES - WORD + WORD - m.alignment));
        left := [rest];
        forall p: nat ensures Count(pushed, p) + m.Pending(left, p) == m.Times(r, p) {
          SplitOnce(m, r, p);
        }
      }
    } else {
      pushed := ScanRange(m, r);
    }
  }

  // A whole range is scanned, the pieces in any order and by any number of markers.  Each position is handed on
  // once, and once more for every time that a range was halved there: never, if there is nobody to share with.
  method ScanAll(m: Memory, whole: Range, parallel: bool) returns (pushed: seq<nat>, halved: seq<nat>)
    requires m.Valid() && m.Proper(whole)
    ensures forall p: nat :: Count(pushed, p) == m.Times(whole, p) + if m.Plausible(p) then Count(halved, p) else 0
    ensures !parallel ==> halved == []
  {
    var pieces := [whole];
    pushed, halved := [], [];
    while pieces != []
      invariant forall r <- pieces :: m.Proper(r)
      invariant forall p: nat :: Count(pushed, p) + m.Pending(pieces, p) ==
                  m.Times(whole, p) + if m.Plausible(p) then Count(halved, p) else 0
      invariant !parallel ==> halved == []
      decreases Total(pieces)
    {
      var i: nat :| i < |pieces|;
      var share := *;
      var left, more, at := Round(m, pieces[i], parallel && share);
      TotalReplace(pieces, i, left);
      forall p: nat
        ensures Count(pushed + more, p) + m.Pending(pieces[..i] + left + pieces[i + 1..], p) ==
          m.Times(whole, p) + if m.Plausible(p) then Count(halved + at, p) else 0
      {
        PendingReplace(m, pieces, i, left, p);
      }
      pieces := pieces[..i] + left + pieces[i + 1..];
      pushed, halved := pushed + more, halved + at;
    }
  }
}
