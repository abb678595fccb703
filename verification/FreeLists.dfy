/** The doubly linked free lists of allchblk.c: hb_next and hb_prev of the block headers, and the table
 *  GC_hblkfreelist of list heads.  Block addresses are counted in heap blocks; 0 is the null pointer.
 */
module FreeLists {
  import opened Common
  import opened HashChains

  type Addr = Ptr

  ghost predicate BackAt(prev: map<Addr, Addr>, s: seq<Addr>, i: nat)
    requires i < |s|
  {
    s[i] in prev && prev[s[i]] == if i == 0 then 0 else s[i - 1]
  }

  // Going forward from head, and back from any element, meets the elements of s.
  ghost predicate DLinked(next: map<Addr, Addr>, prev: map<Addr, Addr>, head: Addr, s: seq<Addr>) {
    Linked(next, head, s) && forall i :: 0 <= i < |s| ==> BackAt(prev, s, i)
  }

  lemma DLinkedFrame(next: map<Addr, Addr>, prev: map<Addr, Addr>, next2: map<Addr, Addr>, prev2: map<Addr, Addr>,
                     head: Addr, s: seq<Addr>)
    requires DLinked(next, prev, head, s)
    requires forall p <- s :: p in next && p in next2 && next2[p] == next[p]
    requires forall p <- s :: p in prev && p in prev2 && prev2[p] == prev[p]
    ensures DLinked(next2, prev2, head, s)
  {
    hide Linked;
    LinkedFrame(next, next2, head, s);
    forall i | 0 <= i < |s| ensures BackAt(prev2, s, i) {
      assert s[i] in s && BackAt(prev, s, i);
    }
  }

  lemma DLinkedIn(next: map<Addr, Addr>, prev: map<Addr, Addr>, head: Addr, s: seq<Addr>)
    requires DLinked(next, prev, head, s)
    ensures forall p <- s :: p != 0 && p in next && p in prev
    ensures head == At(s, 0) && Distinct(s) && (head == 0 <==> s == [])
  {
    LinkedIn(next, head, s);
    if s != [] { LinkedStep(next, head, s, 0); }
    forall p | p in s ensures p in prev {
      var i :| 0 <= i < |s| && s[i] == p;
      assert BackAt(prev, s, i);
    }
  }

  lemma DLinkedStep(next: map<Addr, Addr>, prev: map<Addr, Addr>, head: Addr, s: seq<Addr>, i: nat)
    requires DLinked(next, prev, head, s) && i < |s|
    ensures s[i] != 0 && s[i] in next && next[s[i]] == At(s, i + 1)
    ensures s[i] in prev && prev[s[i]] == if i == 0 then 0 else s[i - 1]
    ensures At(s, i + 1) == 0 <==> i + 1 == |s|
  {
    LinkedStep(next, head, s, i);
    assert BackAt(prev, s, i);
    if i + 1 < |s| { LinkedStep(next, head, s, i + 1); }
  }

  // A new first element.
  lemma DLinkedCons(next: map<Addr, Addr>, prev: map<Addr, Addr>, head: Addr, s: seq<Addr>, p: Addr)
    requires DLinked(next, prev, head, s) && p != 0 && p !in s
    ensures DLinked(next[p := head], if head == 0 then prev[p := 0] else prev[p := 0][head := p], p, [p] + s)
  {
    hide Linked;
    DLinkedIn(next, prev, head, s);
    LinkedCons(next, head, s, p);
    var t := [p] + s;
    var prev2 := if head == 0 then prev[p := 0] else prev[p := 0][head := p];
    forall i | 0 <= i < |t| ensures BackAt(prev2, t, i) {
      if i > 0 {
        assert t[i] == s[i - 1] && BackAt(prev, s, i - 1);
        assert s[i - 1] in s;
        assert i > 1 ==> s[i - 1] != s[0];
      }
    }
  }

  // The links after element j is bypassed.
  function Bypass(prev: map<Addr, Addr>, s: seq<Addr>, j: nat): map<Addr, Addr>
    requires j < |s| && s[j] in prev
  {
    if j + 1 == |s| then prev else prev[s[j + 1] := prev[s[j]]]
  }

  lemma DLinkedWithout(next: map<Addr, Addr>, prev: map<Addr, Addr>, head: Addr, s: seq<Addr>, j: nat)
    requires DLinked(next, prev, head, s) && j < |s|
    ensures s[j] in next && s[j] in prev
    ensures DLinked(Unlinked(next, s, j), Bypass(prev, s, j), if j == 0 then next[s[j]] else head, Without(s, j))
  {
    DLinkedIn(next, prev, head, s);
    DLinkedStep(next, prev, head, s, j);
    LinkedWithout(next, head, s, j);
    var t := Without(s, j);
    var prev2 := Bypass(prev, s, j);
    hide Linked, Unlinked;
    forall i | 0 <= i < |t| ensures BackAt(prev2, t, i) {
      if i < j {
        assert t[i] == s[i] && BackAt(prev, s, i);
        assert j + 1 < |s| ==> s[i] != s[j + 1];
      } else {
        assert t[i] == s[i + 1] && BackAt(prev, s, i + 1);
        assert i > j ==> t[i - 1] == s[i] && s[i + 1] != s[j + 1];
      }
    }
  }

  // Element j is replaced by a new one, p, which takes over its links.
  lemma DLinkedReplace(next: map<Addr, Addr>, prev: map<Addr, Addr>, next2: map<Addr, Addr>, prev2: map<Addr, Addr>,
                       head: Addr, s: seq<Addr>, j: nat, p: Addr)
    requires DLinked(next, prev, head, s) && j < |s| && p != 0 && p !in s
    requires s[j] in next && s[j] in prev
    requires next2 == if j == 0 then next[p := next[s[j]]] else next[p := next[s[j]]][s[j - 1] := p]
    requires prev2 == if j + 1 == |s| then prev[p := prev[s[j]]] else prev[p := prev[s[j]]][s[j + 1] := p]
    ensures DLinked(next2, prev2, if j == 0 then p else head, s[j := p])
  {
    var t := s[j := p];
    DLinkedIn(next, prev, head, s);
    forall i | 0 <= i < |t| ensures LinkAt(next2, t, i) && BackAt(prev2, t, i) {
      DLinkedStep(next, prev, head, s, i);
      assert s[i] in s;
    }
    assert Distinct(t) by {
      forall x, y | 0 <= x < y < |t| ensures t[x] != t[y] {
        assert s[x] in s && s[y] in s;
      }
    }
  }

  // The lists have no element in common.
  ghost predicate Apart(s: seq<Addr>, t: seq<Addr>) {
    forall p <- s :: p !in t
  }

  ghost predicate AllApart(lists: seq<seq<Addr>>) {
    forall i, j :: 0 <= i < |lists| && 0 <= j < |lists| && i != j ==> Apart(lists[i], lists[j])
  }

  ghost predicate Threaded(heads: seq<Addr>, next: map<Addr, Addr>, prev: map<Addr, Addr>, lists: seq<seq<Addr>>) {
    && |heads| == |lists| && AllApart(lists)
    && forall i :: 0 <= i < |lists| ==> DLinked(next, prev, heads[i], lists[i])
  }

  // Changes at one list leave the others alone.
  lemma ThreadedUpdate(heads: seq<Addr>, next: map<Addr, Addr>, prev: map<Addr, Addr>, lists: seq<seq<Addr>>,
                       i: nat, head: Addr, next2: map<Addr, Addr>, prev2: map<Addr, Addr>, s: seq<Addr>)
    requires Threaded(heads, next, prev, lists) && i < |lists|
    requires DLinked(next2, prev2, head, s)
    requires forall k :: 0 <= k < |lists| && k != i ==> Apart(s, lists[k])
    requires forall p :: p !in s && p !in lists[i] && p in next ==> p in next2 && next2[p] == next[p]
    requires forall p :: p !in s && p !in lists[i] && p in prev ==> p in prev2 && prev2[p] == prev[p]
    ensures Threaded(heads[i := head], next2, prev2, lists[i := s])
  {
    hide DLinked;
    var l2 := lists[i := s];
    forall k | 0 <= k < |l2| ensures DLinked(next2, prev2, heads[i := head][k], l2[k]) {
      if k != i {
        DLinkedIn(next, prev, heads[k], lists[k]);
        assert Apart(lists[i], lists[k]) && Apart(s, lists[k]);
        assert forall p <- lists[k] :: p !in s && p !in lists[i];
        DLinkedFrame(next, prev, next2, prev2, heads[k], lists[k]);
      }
    }
    forall x, y | 0 <= x < |l2| && 0 <= y < |l2| && x != y ensures Apart(l2[x], l2[y]) {
      if x != i && y != i { assert Apart(lists[x], lists[y]); }
    }
  }

  class FreeLists {
    var heads: seq<Addr>           // GC_hblkfreelist
    var next: map<Addr, Addr>      // hb_next
    var prev: map<Addr, Addr>      // hb_prev
    ghost var lists: seq<seq<Addr>>

    ghost predicate Valid()
      reads this
    {
      Threaded(heads, next, prev, lists)
    }

    constructor (n: nat)
      ensures Valid() && |lists| == n && (forall i :: 0 <= i < n ==> lists[i] == []) && next == map[] && prev == map[]
    {
      heads := seq(n, i => 0);
      next, prev := map[], map[];
      lists := seq(n, i => []);
    }

    lemma HeadOf(i: nat)
      requires Valid() && i < |lists|
      ensures i < |heads| && heads[i] == At(lists[i], 0) && (heads[i] == 0 <==> lists[i] == [])
      ensures Distinct(lists[i]) && forall p <- lists[i] :: p != 0
    {
      assert DLinked(next, prev, heads[i], lists[i]);
      DLinkedIn(next, prev, heads[i], lists[i]);
    }

    lemma Step(i: nat, j: nat)
      requires Valid() && i < |lists| && j < |lists[i]|
      ensures var p := lists[i][j];
              && p != 0 && p in next && p in prev && i < |heads|
              && next[p] == At(lists[i], j + 1) && prev[p] == (if j == 0 then 0 else lists[i][j - 1])
              && (next[p] == 0 <==> j + 1 == |lists[i]|)
    {
      assert DLinked(next, prev, heads[i], lists[i]);
      DLinkedStep(next, prev, heads[i], lists[i], j);
    }

    // The pointer part of GC_add_to_fl.
    method AddFront(i: nat, p: Addr)
      requires Valid() && i < |lists| && p != 0 && forall k :: 0 <= k < |lists| ==> p !in lists[k]
      modifies this
      ensures Valid() && |lists| == |old(lists)|
      ensures lists[i] == [p] + old(lists)[i] && forall k :: 0 <= k < |lists| && k != i ==> lists[k] == old(lists)[k]
    {
      var second := heads[i];
      ghost var head, next0, prev0 := heads[i], next, prev;
      assert DLinked(next, prev, heads[i], lists[i]);
      DLinkedCons(next, prev, heads[i], lists[i], p);
      DLinkedIn(next, prev, heads[i], lists[i]);
      assert second != 0 ==> second in lists[i];
      hide DLinked;
      ghost var s := [p] + lists[i];
      heads := heads[i := p];
      next := next[p := second];
      prev := prev[p := 0];
      if second != 0 {
        prev := prev[second := p];
      }
      ConsApart(lists, i, p);
      ThreadedUpdate(old(heads), next0, prev0, lists, i, p, next, prev, s);
      lists := lists[i := s];
    }

    // The pointer part of GC_remove_from_fl: take block p, element j of list i, out.
    method Remove(i: nat, p: Addr, ghost j: nat)
      requires Valid() && i < |lists| && j < |lists[i]| && p == lists[i][j]
      modifies this
      ensures Valid() && |lists| == |old(lists)|
      ensures lists[i] == Without(old(lists)[i], j) && forall k :: 0 <= k < |lists| && k != i ==>
                lists[k] == old(lists)[k]
      ensures forall k :: 0 <= k < |lists| ==> p !in lists[k]
      ensures p in next && p in old(next) && next[p] == old(next)[p] && p in prev && p in old(prev)
      ensures prev[p] == old(prev)[p]
    {
      Step(i, j);
      ghost var head, next0, prev0 := heads[i], next, prev;
      assert DLinked(next, prev, heads[i], lists[i]);
      DLinkedIn(next, prev, heads[i], lists[i]);
      DLinkedWithout(next, prev, heads[i], lists[i], j);
      WithoutApart(lists, i, j);
      hide DLinked;
      ghost var s := Without(lists[i], j);
      assert prev[p] == 0 <==> j == 0 by {
        if j > 0 { assert lists[i][j - 1] in lists[i]; }
      }
      assert prev[p] != p && next[p] != p;
      if prev[p] == 0 {
        heads := heads[i := next[p]];
      } else {
        next := next[prev[p] := next[p]];
      }
      if next[p] != 0 {
        prev := prev[next[p] := prev[p]];
      }
      assert next == Unlinked(next0, lists[i], j) && prev == Bypass(prev0, lists[i], j);
      assert heads[i] == if j == 0 then next0[p] else head;
      BypassFrame(next0, prev0, lists[i], j);
      ThreadedUpdate(old(heads), next0, prev0, lists, i, heads[i], next, prev, s);
      assert heads == old(heads)[i := heads[i]];
      lists := lists[i := s];
    }

    // The pointer part of GC_split_block: block p takes the place of block h, element j of list i.
    method Replace(i: nat, h: Addr, p: Addr, ghost j: nat)
      requires Valid() && i < |lists| && j < |lists[i]| && h == lists[i][j]
      requires p != 0 && forall k :: 0 <= k < |lists| ==> p !in lists[k]
      modifies this
      ensures Valid() && |lists| == |old(lists)|
      ensures lists[i] == old(lists)[i][j := p] && forall k :: 0 <= k < |lists| && k != i ==> lists[k] == old(lists)[k]
      ensures forall k :: 0 <= k < |lists| ==> h !in lists[k]
    {
      Step(i, j);
      ghost var s, t, head, next0, prev0 := lists[i], lists[i][j := p], heads[i], next, prev;
      assert DLinked(next, prev, heads[i], lists[i]);
      DLinkedIn(next, prev, heads[i], lists[i]);
      assert j > 0 ==> s[j - 1] in s;
      assert j + 1 < |s| ==> s[j + 1] in s;
      ReplaceApart(lists, i, j, p);
      hide DLinked, AllApart;
      var before, after := prev[h], next[h];
      prev := prev[p := before];
      next := next[p := after];
      if before != 0 {
        next := next[before := p];
      } else {
        heads := heads[i := p];
      }
      if after != 0 {
        prev := prev[after := p];
      }
      DLinkedReplace(next0, prev0, next, prev, head, s, j, p);
      assert p in t by { assert t[j] == p; }
      assert heads == old(heads)[i := if j == 0 then p else head];
      ThreadedUpdate(old(heads), next0, prev0, lists, i, if j == 0 then p else head, next, prev, t);
      lists := lists[i := t];
    }
  }

  lemma ReplaceApart(lists: seq<seq<Addr>>, i: nat, j: nat, p: Addr)
    requires AllApart(lists) && i < |lists| && j < |lists[i]| && Distinct(lists[i])
    requires forall k :: 0 <= k < |lists| ==> p !in lists[k]
    ensures forall k :: 0 <= k < |lists| && k != i ==> Apart(lists[i][j := p], lists[k])
    ensures lists[i][j] !in lists[i][j := p]
    ensures forall k :: 0 <= k < |lists| && k != i ==> lists[i][j] !in lists[k]
  {
    var s := lists[i];
    assert s[j] in s;
    forall k | 0 <= k < |lists| && k != i ensures Apart(s[j := p], lists[k]) && s[j] !in lists[k] {
      assert Apart(s, lists[k]);
      assert forall q :: q in s[j := p] ==> q == p || q in s;
    }
    assert forall x :: 0 <= x < |s| && x != j ==> s[x] != s[j];
  }

  lemma ConsApart(lists: seq<seq<Addr>>, i: nat, p: Addr)
    requires AllApart(lists) && i < |lists| && forall k :: 0 <= k < |lists| ==> p !in lists[k]
    ensures forall k :: 0 <= k < |lists| && k != i ==> Apart([p] + lists[i], lists[k])
  {
    forall k | 0 <= k < |lists| && k != i ensures Apart([p] + lists[i], lists[k]) {
      assert Apart(lists[i], lists[k]);
      assert forall q :: q in [p] + lists[i] ==> q == p || q in lists[i];
    }
  }

  lemma WithoutApart(lists: seq<seq<Addr>>, i: nat, j: nat)
    requires AllApart(lists) && i < |lists| && j < |lists[i]| && Distinct(lists[i])
    ensures forall k :: 0 <= k < |lists| && k != i ==> Apart(Without(lists[i], j), lists[k])
    ensures lists[i][j] !in Without(lists[i], j)
    ensures forall k :: 0 <= k < |lists| && k != i ==> lists[i][j] !in lists[k]
  {
    var s := lists[i];
    assert s[j] in s;
    forall k | 0 <= k < |lists| && k != i ensures Apart(Without(s, j), lists[k]) && s[j] !in lists[k] {
      assert Apart(s, lists[k]);
      forall q | q in Without(s, j) ensures q !in lists[k] { WithoutIn(s, j, q); }
    }
    WithoutIn(s, j, s[j]);
  }

  lemma BypassFrame(next: map<Addr, Addr>, prev: map<Addr, Addr>, s: seq<Addr>, j: nat)
    requires j < |s| && s[j] in next && s[j] in prev && Distinct(s)
    ensures forall p :: p !in Without(s, j) && p !in s && p in next ==>
              p in Unlinked(next, s, j) && Unlinked(next, s, j)[p] == next[p]
    ensures forall p :: p !in Without(s, j) && p !in s && p in prev ==>
              p in Bypass(prev, s, j) && Bypass(prev, s, j)[p] == prev[p]
  {
    assert j > 0 ==> s[j - 1] in s;
    assert j + 1 < |s| ==> s[j + 1] in s;
  }
}
