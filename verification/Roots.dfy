/** The registered ranges of static roots (mark_rts.c, without the Windows variants): a table, and a hash index
 *  over the starts of the ranges.
 */
module Roots {
  import HashChains
  import Exclusions
  import opened Ranges

  const RT_SIZE: nat := 64
  const WORD: nat := 8

  datatype Root = Root(start: nat, end: nat, tmp: bool, next: int)

  // What a registered start stands for.
  datatype Extent = Extent(end: nat, tmp: bool)

  type Registered = map<nat, Extent>

  datatype Outcome = Done | TooMany

  // rt_hash
  function RtHash(addr: nat): (h: nat)
    ensures h < RT_SIZE
  {
    var a := HashChains.Xor(addr, addr / 0x1_0000_0000_0000);
    var b := HashChains.Xor(a, a / 0x100_0000);
    var c := HashChains.Xor(b, b / 0x1000);
    HashChains.Xor(c, c / 0x40) % RT_SIZE
  }

  ghost predicate Rooted(m: Registered, x: nat) {
    exists s :: s in m && s <= x < m[s].end
  }

  ghost predicate Unique(t: seq<Root>) {
    forall i, j :: 0 <= i < j < |t| ==> t[i].start != t[j].start
  }

  ghost predicate ShownAt(t: seq<Root>, m: Registered, i: nat) {
    i < |t| ==> t[i].start < t[i].end && t[i].start in m && m[t[i].start] == Extent(t[i].end, t[i].tmp)
  }

  ghost predicate HasStart(t: seq<Root>, s: nat) {
    exists i :: 0 <= i < |t| && t[i].start == s
  }

  // The ranges in the table are those registered, each start once.
  ghost predicate Shows(t: seq<Root>, m: Registered) {
    && Unique(t) && (forall i: nat :: i < |t| ==> ShownAt(t, m, i))
    && forall s <- m :: HasStart(t, s)
  }

  lemma EntryOf(t: seq<Root>, m: Registered, i: nat)
    requires Shows(t, m) && i < |t|
    ensures t[i].start < t[i].end && t[i].start in m && m[t[i].start] == Extent(t[i].end, t[i].tmp)
  {
    assert ShownAt(t, m, i);
  }

  lemma StartOf(t: seq<Root>, m: Registered, s: nat) returns (i: nat)
    requires Shows(t, m) && s in m
    ensures i < |t| && t[i].start == s && m[s] == Extent(t[i].end, t[i].tmp)
  {
    assert HasStart(t, s);
    i :| i < |t| && t[i].start == s;
    assert ShownAt(t, m, i);
  }

  // GC_root_size
  function Total(t: seq<Root>): int {
    if t == [] then 0 else Total(t[..|t| - 1]) + t[|t| - 1].end - t[|t| - 1].start
  }

  lemma {:induction false} TotalUpdate(t: seq<Root>, i: nat, r: Root)
    requires i < |t|
    ensures Total(t[i := r]) == Total(t) - (t[i].end - t[i].start) + (r.end - r.start)
  {
    var l := |t| - 1;
    if i == l {
      assert t[i := r][..l] == t[..l];
    } else {
      assert t[i := r][..l] == t[..l][i := r];
      TotalUpdate(t[..l], i, r);
    }
  }

  lemma {:induction false} TotalSame(t: seq<Root>, u: seq<Root>)
    requires |u| == |t| && forall i :: 0 <= i < |t| ==> u[i].start == t[i].start && u[i].end == t[i].end
    ensures Total(u) == Total(t)
  {
    if t != [] { TotalSame(t[..|t| - 1], u[..|u| - 1]); }
  }

  /****** the index ******/

  // The last of the first k ranges whose start has this hash value.
  function Last(t: seq<Root>, k: nat, h: nat): (r: int)
    requires k <= |t|
    ensures -1 <= r < k
  {
    if k == 0 then -1 else if RtHash(t[k - 1].start) == h then k - 1 else Last(t, k - 1, h)
  }

  lemma {:induction false} LastIs(t: seq<Root>, k: nat, h: nat)
    requires k <= |t|
    ensures var r := Last(t, k, h);
            && (r >= 0 ==> RtHash(t[r].start) == h)
            && forall j :: r < j < k && j >= 0 ==> RtHash(t[j].start) != h
  {
    if k > 0 && RtHash(t[k - 1].start) != h { LastIs(t, k - 1, h); }
  }

  lemma {:induction false} LastSame(t: seq<Root>, u: seq<Root>, k: nat, h: nat)
    requires k <= |t| && k <= |u| && forall i :: 0 <= i < k ==> u[i].start == t[i].start
    ensures Last(u, k, h) == Last(t, k, h)
  {
    if k > 0 { LastSame(t, u, k - 1, h); }
  }

  // Each header of the index is the last range with its hash value, and each range is linked to the one before it.
  ghost predicate Indexed(t: seq<Root>, index: seq<int>) {
    && |index| == RT_SIZE
    && (forall h :: 0 <= h < RT_SIZE ==> index[h] == Last(t, |t|, h))
    && (forall i :: 0 <= i < |t| ==> t[i].next == Last(t, i, RtHash(t[i].start)))
  }

  // Place p is on the chain for b, or is the end of it, and no range after it starts at b.
  ghost predicate OnChain(t: seq<Root>, p: int, b: nat) {
    && -1 <= p < |t| && (p >= 0 ==> RtHash(t[p].start) == RtHash(b))
    && forall j :: p < j < |t| && j >= 0 ==> t[j].start != b
  }

  lemma ChainHead(t: seq<Root>, index: seq<int>, b: nat)
    requires Indexed(t, index)
    ensures |index| == RT_SIZE && OnChain(t, index[RtHash(b)], b)
  {
    LastIs(t, |t|, RtHash(b));
  }

  lemma ChainNext(t: seq<Root>, index: seq<int>, p: int, b: nat)
    requires Indexed(t, index) && OnChain(t, p, b) && p >= 0 && t[p].start != b
    ensures OnChain(t, t[p].next, b) && -1 <= t[p].next < p
  {
    hide RtHash;
    LastIs(t, p, RtHash(b));
  }

  lemma ChainEnd(t: seq<Root>, b: nat)
    requires OnChain(t, -1, b)
    ensures forall j :: 0 <= j < |t| ==> t[j].start != b
  {
  }

  // A range is put in front of its chain.
  lemma IndexedAdd(t: seq<Root>, index: seq<int>, r: Root)
    requires Indexed(t, index) && r.next == index[RtHash(r.start)]
    ensures Indexed(t + [r], index[RtHash(r.start) := |t|])
  {
    var u := t + [r];
    hide RtHash;
    forall h: nat, k: nat | k <= |t| ensures Last(u, k, h) == Last(t, k, h) {
      LastSame(t, u, k, h);
    }
  }

  // Ends may change.
  lemma IndexedEnd(t: seq<Root>, index: seq<int>, i: nat, r: Root)
    requires Indexed(t, index) && i < |t| && r.start == t[i].start && r.next == t[i].next
    ensures Indexed(t[i := r], index)
  {
    var u := t[i := r];
    hide RtHash;
    forall h: nat, k: nat | k <= |t| ensures Last(u, k, h) == Last(t, k, h) {
      LastSame(t, u, k, h);
    }
  }

  /****** what the operations mean ******/

  function RoundUp(x: nat): nat {
    (x + WORD - 1) / WORD * WORD
  }

  function RoundDown(x: nat): nat {
    x / WORD * WORD
  }

  // A range is registered: a range with the same start is extended, and stays temporary if it was.
  ghost function Added(m: Registered, b: nat, e: nat, tmp: bool): Registered {
    if b >= e then m
    else if b in m then m[b := Extent(if e <= m[b].end then m[b].end else e, m[b].tmp)]
    else m[b := Extent(e, tmp)]
  }

  // What GC_remove_tmp_roots leaves.
  ghost function Permanent(m: Registered): Registered {
    map s | s in m && !m[s].tmp :: m[s]
  }

  // What GC_remove_roots leaves: a range goes if it lies in the given one.
  ghost function Outside(m: Registered, b: nat, e: nat): Registered {
    map s | s in m && !(s >= b && m[s].end <= e) :: m[s]
  }

  // Registering makes roots of all words of the range, and takes none away.
  lemma AddedRooted(m: Registered, b: nat, e: nat, tmp: bool, x: nat)
    ensures Rooted(Added(m, b, e, tmp), x) <==> Rooted(m, x) || b <= x < e
  {
    var m2 := Added(m, b, e, tmp);
    if Rooted(m, x) {
      var s :| s in m && s <= x < m[s].end;
      assert s in m2 && m2[s].end >= m[s].end;
    }
    if b <= x < e { assert b in m2 && m2[b].end >= e; }
    if Rooted(m2, x) {
      var s :| s in m2 && s <= x < m2[s].end;
      assert s != b ==> s in m && m2[s] == m[s];
    }
  }

  // A range registered for good is still all there when the temporary ones are removed, if and only if no temporary
  // one with the same start was there before it, or other permanent ones contain all of it.
  lemma PermanentStays(m: Registered, b: nat, e: nat)
    requires b < e
    ensures (forall x :: b <= x < e ==> Rooted(Permanent(Added(m, b, e, false)), x)) <==>
            b !in m || !m[b].tmp || (forall x :: b <= x < e ==> Rooted(Permanent(m), x))
  {
    var m2 := Permanent(Added(m, b, e, false));
    if b !in m || !m[b].tmp {
      forall x | b <= x < e ensures Rooted(m2, x) { assert b in m2 && m2[b].end >= e; }
    } else {
      assert m2 == Permanent(m);
    }
  }

  /****** the table ******/

  // The last range takes the place of the ith.
  function Moved(t: seq<Root>, i: nat): (r: seq<Root>)
    requires i < |t|
    ensures |r| == |t| - 1
  {
    var last := t[|t| - 1];
    t[i := Root(last.start, last.end, last.tmp, t[i].next)][..|t| - 1]
  }

  lemma ShowsMoved(t: seq<Root>, m: Registered, i: nat)
    requires Shows(t, m) && i < |t|
    ensures Shows(Moved(t, i), m - {t[i].start})
  {
    var u, l := Moved(t, i), |t| - 1;
    forall j: nat | j < l ensures u[j].start == t[if j == i then l else j].start && ShownAt(u, m - {t[i].start}, j) {
      assert ShownAt(t, m, if j == i then l else j);
    }
    forall s | s in m && s != t[i].start ensures HasStart(u, s) {
      var j := StartOf(t, m, s);
      assert u[if j == l then i else j].start == s;
    }
  }

  lemma MovedKeeps(t: seq<Root>, i: nat)
    requires i < |t|
    ensures forall j :: 0 <= j < i && j < |t| - 1 ==> Moved(t, i)[j] == t[j]
  {
  }

  lemma MovedIs(t: seq<Root>, i: nat, u: seq<Root>, l: Root)
    requires i < |t| && u == t[..|t| - 1] && l == t[|t| - 1]
    ensures Moved(t, i) == if i < |u| then u[i := Root(l.start, l.end, l.tmp, t[i].next)] else u
    ensures i < |u| ==> u[i] == t[i]
  {
  }

  lemma TotalLast(t: seq<Root>, u: seq<Root>, l: Root)
    requires t != [] && u == t[..|t| - 1] && l == t[|t| - 1]
    ensures Total(t) == Total(u) + (l.end - l.start)
  {
  }

  lemma TotalMoved(t: seq<Root>, i: nat)
    requires i < |t|
    ensures Total(Moved(t, i)) == Total(t) - (t[i].end - t[i].start)
  {
    var u, l := t[..|t| - 1], t[|t| - 1];
    TotalLast(t, u, l);
    MovedIs(t, i, u, l);
    TotalParts(t, i, u, l);
  }

  lemma TotalParts(t: seq<Root>, i: nat, u: seq<Root>, l: Root)
    requires i < |t| == |u| + 1 && (if i < |u| then u[i] == t[i] else t[i] == l)
    requires Moved(t, i) == if i < |u| then u[i := Root(l.start, l.end, l.tmp, t[i].next)] else u
    requires Total(t) == Total(u) + (l.end - l.start)
    ensures Total(Moved(t, i)) == Total(t) - (t[i].end - t[i].start)
  {
    hide *;
    if i < |u| { TotalUpdate(u, i, Root(l.start, l.end, l.tmp, t[i].next)); }
  }

  lemma ShowsAppend(t: seq<Root>, m: Registered, r: Root)
    requires Shows(t, m) && r.start !in m && r.start < r.end
    ensures Shows(t + [r], m[r.start := Extent(r.end, r.tmp)])
    ensures Total(t + [r]) == Total(t) + (r.end - r.start)
  {
    var u, m2 := t + [r], m[r.start := Extent(r.end, r.tmp)];
    assert u[..|t|] == t;
    forall j: nat | j < |u| ensures ShownAt(u, m2, j) {
      assert j < |t| ==> ShownAt(t, m, j);
    }
    forall s <- m2 ensures HasStart(u, s) {
      if s in m {
        var j := StartOf(t, m, s);
        assert u[j].start == s;
      } else {
        assert u[|t|].start == s;
      }
    }
    forall j | 0 <= j < |t| ensures t[j].start != r.start { assert ShownAt(t, m, j); }
  }

  lemma ShowsEnd(t: seq<Root>, m: Registered, i: nat, e: nat)
    requires Shows(t, m) && i < |t| && e > t[i].end
    ensures Shows(t[i := t[i].(end := e)], m[t[i].start := Extent(e, t[i].tmp)])
    ensures Total(t[i := t[i].(end := e)]) == Total(t) + (e - t[i].end)
  {
    var u, m2 := t[i := t[i].(end := e)], m[t[i].start := Extent(e, t[i].tmp)];
    assert ShownAt(t, m, i);
    forall j: nat | j < |u| ensures ShownAt(u, m2, j) {
      assert ShownAt(t, m, j);
    }
    forall s <- m2 ensures HasStart(u, s) {
      var j := StartOf(t, m, s);
      assert u[j].start == s;
    }
    TotalUpdate(t, i, t[i].(end := e));
  }

  // Links do not matter.
  lemma ShowsLinks(t: seq<Root>, u: seq<Root>, m: Registered)
    requires Shows(t, m) && |u| == |t| && forall i :: 0 <= i < |t| ==> u[i] == t[i].(next := u[i].next)
    ensures Shows(u, m) && Total(u) == Total(t)
  {
    TotalSame(t, u);
    forall j: nat | j < |u| ensures ShownAt(u, m, j) { assert ShownAt(t, m, j); }
    forall s <- m ensures HasStart(u, s) {
      var j := StartOf(t, m, s);
      assert u[j].start == s;
    }
  }

  class StaticRoots {
    const max: nat                 // MAX_ROOT_SETS
    const table: array<Root>       // GC_static_roots
    const index: array<int>        // GC_root_index
    var n: nat                     // n_root_sets
    var rootSize: int              // GC_root_size
    ghost var roots: Registered

    // The table and its size, without the index.
    ghost predicate Tabled()
      reads this, table
    {
      table.Length == max && index.Length == RT_SIZE && n <= max && Shows(table[..n], roots) &&
          rootSize == Total(table[..n])
    }

    ghost predicate Valid()
      reads this, table, index
    {
      Tabled() && Indexed(table[..n], index[..])
    }

    constructor (max: nat)
      ensures Valid() && roots == map[] && fresh(table) && fresh(index)
    {
      this.max := max;
      table := new Root[max](i => Root(0, 0, false, 0));
      index := new int[RT_SIZE](i => -1);
      n, rootSize, roots := 0, 0, map[];
    }

    // GC_roots_present: the place of the range that starts at b, or -1
    method Present(b: nat) returns (p: int)
      requires Valid()
      ensures -1 <= p < n
      ensures p >= 0 <==> b in roots
      ensures p >= 0 ==> table[p].start == b
    {
      hide RtHash, Shows, Total, Indexed, Last, OnChain;
      ghost var t := table[..n];
      p := index[RtHash(b)];
      ChainHead(t, index[..], b);
      while p != -1 && table[p].start != b
        invariant OnChain(t, p, b) && -1 <= p < n
        decreases p
      {
        ChainNext(t, index[..], p, b);
        p := table[p].next;
      }
      if p >= 0 {
        EntryOf(t, roots, p);
      } else {
        ChainEnd(t, b);
        if b in roots { ghost var i := StartOf(t, roots, b); }
      }
    }

    // GC_add_roots_inner
    method AddRoots(b0: nat, e0: nat, tmp: bool) returns (r: Outcome)
      requires Valid()
      modifies this, table, index
      ensures r == Done ==> Valid() && roots == Added(old(roots), RoundUp(b0), RoundDown(e0), tmp)
      ensures r == TooMany ==> old(n) == max && RoundUp(b0) !in old(roots)
    {
      hide Shows, Total, Indexed, RoundUp, RoundDown;
      var b, e := RoundUp(b0), RoundDown(e0);
      r := Done;
      if b < e {
        var present := Present(b);
        if present >= 0 {
          EntryOf(table[..n], roots, present);
          if e > table[present].end {
            Extend(present, e);
          }
        } else if n == max {
          r := TooMany;
        } else {
          Append(b, e, tmp);
        }
      }
    }

    method Extend(i: nat, e: nat)
      requires Valid() && i < n && e > table[i].end
      modifies `rootSize, `roots, table
      ensures Valid() && roots == old(roots)[old(table[i]).start := Extent(e, old(table[i]).tmp)]
    {
      hide Shows, Total, Indexed;
      ghost var t := table[..n];
      ShowsEnd(t, roots, i, e);
      IndexedEnd(t, index[..], i, t[i].(end := e));
      roots := roots[table[i].start := Extent(e, table[i].tmp)];
      rootSize := rootSize + e - table[i].end;
      table[i] := table[i].(end := e);
      assert table[..n] == t[i := t[i].(end := e)];
    }

    method Append(b: nat, e: nat, tmp: bool)
      requires Valid() && n < max && b < e && b !in roots
      modifies this, table, index
      ensures Valid() && roots == old(roots)[b := Extent(e, tmp)]
    {
      hide Shows, Total, Indexed, RtHash;
      ghost var t, entry := table[..n], Root(b, e, tmp, index[RtHash(b)]);
      ShowsAppend(t, roots, entry);
      IndexedAdd(t, index[..], entry);
      table[n] := Root(b, e, tmp, 0);
      AddToIndex(n);
      assert table[..n + 1] == t + [entry];
      rootSize := rootSize + (e - b);
      n := n + 1;
      roots := roots[b := Extent(e, tmp)];
    }

    // add_roots_to_index
    method AddToIndex(p: nat)
      requires p < table.Length && index.Length == RT_SIZE
      modifies table, index
      ensures table[..] == old(table[..])[p := old(table[p]).(next := old(index[RtHash(table[p].start)]))]
      ensures index[..] == old(index[..])[RtHash(old(table[p]).start) := p]
    {
      var h := RtHash(table[p].start);
      table[p] := table[p].(next := index[h]);
      index[h] := p;
    }

    // GC_clear_roots
    method Clear()
      requires Valid()
      modifies this, index
      ensures Valid() && roots == map[] && rootSize == 0
    {
      n, rootSize, roots := 0, 0, map[];
      ZeroIndex();
    }

    method ZeroIndex()
      requires index.Length == RT_SIZE
      modifies index
      ensures forall h :: 0 <= h < RT_SIZE ==> index[h] == -1
    {
      var h := 0;
      while h < RT_SIZE
        invariant h <= RT_SIZE && forall k :: 0 <= k < h ==> index[k] == -1
      {
        index[h] := -1;
        h := h + 1;
      }
    }

    // GC_remove_root_at_pos
    method RemoveAt(i: nat)
      requires Tabled() && i < n
      modifies this, table
      ensures Tabled() && roots == old(roots) - {old(table[i]).start} && n == old(n) - 1
      ensures table[..n] == Moved(old(table[..n]), i)
    {
      ghost var t := table[..n];
      ShowsMoved(t, roots, i);
      TotalMoved(t, i);
      hide Shows, Total;
      rootSize := rootSize - (table[i].end - table[i].start);
      roots := roots - {table[i].start};
      table[i] := Root(table[n - 1].start, table[n - 1].end, table[n - 1].tmp, table[i].next);
      n := n - 1;
      assert table[..n] == Moved(t, i);
    }

    // GC_rebuild_root_index
    method Rebuild()
      requires Tabled()
      modifies table, index
      ensures Valid()
    {
      hide Shows, Total, Indexed, RtHash;
      ZeroIndex();
      IndexedNone(index[..]);
      ghost var t := table[..n];
      var i := 0;
      while i < n
        invariant i <= n && Indexed(table[..i], index[..])
        invariant forall k :: 0 <= k < n ==> table[k] == t[k].(next := table[k].next)
        modifies table, index
      {
        ghost var t1 := table[..i];
        IndexedAdd(t1, index[..], table[i].(next := index[RtHash(table[i].start)]));
        AddToIndex(i);
        assert table[..i + 1] == t1 + [table[i]];
        i := i + 1;
      }
      ShowsLinks(t, table[..n], roots);
    }

    // GC_remove_tmp_roots
    method RemoveTmp()
      requires Valid()
      modifies this, table, index
      ensures Valid() && roots == Permanent(old(roots))
    {
      hide Shows, Total, Indexed, Moved;
      var i := 0;
      while i < n
        invariant i <= n && Tabled()
        invariant forall j :: 0 <= j < i ==> !table[j].tmp
        invariant forall s <- roots :: s in old(roots) && roots[s] == old(roots)[s]
        invariant forall s <- old(roots) :: s in roots || old(roots)[s].tmp
        decreases n - i
      {
        ghost var t := table[..n];
        EntryOf(t, roots, i);
        if table[i].tmp {
          MovedKeeps(t, i);
          RemoveAt(i);
          assert forall j :: 0 <= j < i ==> table[..n][j] == t[j];
        } else {
          i := i + 1;
        }
      }
      forall s <- roots ensures !roots[s].tmp {
        var j := StartOf(table[..n], roots, s);
        assert !table[j].tmp;
      }
      assert roots == Permanent(old(roots));
      Rebuild();
    }

    // GC_remove_roots_inner
    method RemoveRoots(b: nat, e: nat)
      requires Valid()
      modifies this, table, index
      ensures Valid() && roots == Outside(old(roots), b, e)
    {
      hide Shows, Total, Indexed, Moved;
      var i := 0;
      while i < n
        invariant i <= n && Tabled()
        invariant forall j :: 0 <= j < i ==> !(table[j].start >= b && table[j].end <= e)
        invariant forall s <- roots :: s in old(roots) && roots[s] == old(roots)[s]
        invariant forall s <- old(roots) :: s in roots || (s >= b && old(roots)[s].end <= e)
        decreases n - i
      {
        ghost var t := table[..n];
        EntryOf(t, roots, i);
        if table[i].start >= b && table[i].end <= e {
          MovedKeeps(t, i);
          RemoveAt(i);
          assert forall j :: 0 <= j < i ==> table[..n][j] == t[j];
        } else {
          i := i + 1;
        }
      }
      forall s <- roots ensures !(s >= b && roots[s].end <= e) {
        var j := StartOf(table[..n], roots, s);
        assert table[j].start == s;
      }
      assert roots == Outside(old(roots), b, e);
      Rebuild();
    }

    // The part of GC_push_roots for static data: what is handed on is all that is registered and not excluded.
    method PushStatic(excl: Exclusions.Table) returns (out: seq<Range>)
      requires Valid() && excl.Valid() && excl.entries > 0
      ensures forall x: nat :: Covered(out, x) <==> Rooted(roots, x) && !excl.Excluded(x)
    {
      hide Shows, Total, Indexed, Exclusions.Ordered, Covered;
      CoveredNone();
      out := [];
      var i := 0;
      while i < n
        invariant i <= n
        invariant forall x: nat :: Covered(out, x) <==> InFirst(i, x) && !excl.Excluded(x)
      {
        var part := excl.PushConditional(table[i].start, table[i].end);
        forall x: nat
          ensures Covered(out + part, x) <==> Covered(out, x) || Covered(part, x)
        {
          CoveredBoth(out, part, x);
        }
        out := out + part;
        i := i + 1;
      }
      forall x: nat ensures InFirst(n, x) <==> Rooted(roots, x) { AllFirst(x); }
    }

    // Byte x is in one of the first i ranges.
    ghost predicate InFirst(i: nat, x: nat)
      reads this, table
    {
      exists j :: 0 <= j < i && j < table.Length && table[j].start <= x < table[j].end
    }

    lemma AllFirst(x: nat)
      requires Tabled()
      ensures InFirst(n, x) <==> Rooted(roots, x)
    {
      var t := table[..n];
      hide Shows, Total;
      if InFirst(n, x) {
        var j :| 0 <= j < n && table[j].start <= x < table[j].end;
        EntryOf(t, roots, j);
      }
      if Rooted(roots, x) {
        var s :| s in roots && s <= x < roots[s].end;
        var j := StartOf(t, roots, s);
        assert table[j].start <= x < table[j].end;
      }
    }
  }

  lemma IndexedNone(index: seq<int>)
    requires |index| == RT_SIZE && forall h :: 0 <= h < RT_SIZE ==> index[h] == -1
    ensures Indexed([], index)
  {
  }

  lemma CoveredNone()
    ensures forall x: nat :: !Covered([], x)
  {
  }
}
