/** The chained hash tables of finalize.c, shared by disappearing links and finalizable objects.
 *
 *  Records are known by their addresses (0 is the null pointer); `next` and `key` are the two fields
 *  of hash_chain_entry.  A ghost list of records stands beside every chain.
 */
module HashChains {
  import opened Common

  type Ptr = nat
  type Key = nat

  function Pow2(n: nat): (r: nat)
    ensures r > 0
  {
    if n == 0 then 1 else 2 * Pow2(n - 1)
  }

  function Xor(a: nat, b: nat): nat {
    if a == 0 && b == 0 then 0 else (a % 2 + b % 2) % 2 + 2 * Xor(a / 2, b / 2)
  }

  // The low order bits of a word, and the others.
  function Low(w: nat, bound: nat): (r: nat)
    requires bound > 0
    ensures r < bound
  {
    w % bound
  }

  function High(w: nat, bound: nat): nat
    requires bound > 0
  {
    w / bound
  }

  // HASH3 for a table of 2^log headers.
  function Hash(k: Key, log: nat): (h: nat)
    ensures h < Pow2(log)
  {
    Low(Xor(k / 8, High(k / 8, Pow2(log))), Pow2(log))
  }

  // The number of headers; a log of -1 means that there is no table yet.
  function Size(log: int): nat {
    if log < 0 then 0 else Pow2(log)
  }

  function At(s: seq<Ptr>, i: nat): Ptr {
    if i < |s| then s[i] else 0
  }

  ghost predicate LinkAt(next: map<Ptr, Ptr>, s: seq<Ptr>, i: nat)
    requires i < |s|
  {
    s[i] != 0 && s[i] in next && next[s[i]] == At(s, i + 1)
  }

  // The records in s are what following `next` from head comes across, in this order.
  ghost predicate Linked(next: map<Ptr, Ptr>, head: Ptr, s: seq<Ptr>) {
    head == At(s, 0) && Distinct(s) && forall i :: 0 <= i < |s| ==> LinkAt(next, s, i)
  }

  lemma LinkedIn(next: map<Ptr, Ptr>, head: Ptr, s: seq<Ptr>)
    requires Linked(next, head, s)
    ensures forall p <- s :: p != 0 && p in next
    ensures head == At(s, 0) && Distinct(s) && (head == 0 ==> s == [])
  {
    if s != [] { assert LinkAt(next, s, 0); }
    forall p | p in s ensures p != 0 && p in next {
      var i :| 0 <= i < |s| && s[i] == p;
      assert LinkAt(next, s, i);
    }
  }

  lemma LinkedStep(next: map<Ptr, Ptr>, head: Ptr, s: seq<Ptr>, i: nat)
    requires Linked(next, head, s) && i < |s|
    ensures s[i] != 0 && s[i] in next && next[s[i]] == At(s, i + 1)
  {
    assert LinkAt(next, s, i);
  }

  lemma LinkedFrame(next: map<Ptr, Ptr>, next2: map<Ptr, Ptr>, head: Ptr, s: seq<Ptr>)
    requires Linked(next, head, s)
    requires forall p <- s :: p in next2 && p in next && next2[p] == next[p]
    ensures Linked(next2, head, s)
  {
    forall i | 0 <= i < |s| ensures LinkAt(next2, s, i) {
      assert s[i] in s && LinkAt(next, s, i);
    }
  }

  lemma LinkedCons(next: map<Ptr, Ptr>, head: Ptr, s: seq<Ptr>, p: Ptr)
    requires Linked(next, head, s) && p != 0 && p !in s
    ensures Linked(next[p := head], p, [p] + s)
  {
    var t := [p] + s;
    var n2 := next[p := head];
    forall i | 0 <= i < |t| ensures LinkAt(n2, t, i) {
      if i > 0 { assert LinkAt(next, s, i - 1); }
    }
  }

  // Taking record number j out of a chain the way the source does, with the record before it at hand.
  function Unlinked(next: map<Ptr, Ptr>, s: seq<Ptr>, j: nat): map<Ptr, Ptr>
    requires j < |s| && s[j] in next
  {
    if j == 0 then next else next[s[j - 1] := next[s[j]]]
  }

  function Without<T>(s: seq<T>, j: nat): seq<T>
    requires j < |s|
  {
    s[..j] + s[j + 1..]
  }

  lemma LinkedWithout(next: map<Ptr, Ptr>, head: Ptr, s: seq<Ptr>, j: nat)
    requires Linked(next, head, s) && j < |s|
    ensures s[j] in next
    ensures Linked(Unlinked(next, s, j), if j == 0 then next[s[j]] else head, Without(s, j))
  {
    assert LinkAt(next, s, j);
    var t := Without(s, j);
    var n2 := Unlinked(next, s, j);
    forall i | 0 <= i < |t| ensures LinkAt(n2, t, i) {
      if i < j {
        assert t[i] == s[i] && LinkAt(next, s, i);
      } else {
        assert t[i] == s[i + 1] && LinkAt(next, s, i + 1);
      }
    }
  }

  /****** all chains of a table ******/

  function Elems(s: seq<Ptr>): set<Ptr> {
    set p | p in s
  }

  function Members(chains: seq<seq<Ptr>>): set<Ptr> {
    if chains == [] then {} else Members(chains[..|chains| - 1]) + Elems(chains[|chains| - 1])
  }

  lemma {:induction false} InMembers(chains: seq<seq<Ptr>>, i: nat, p: Ptr)
    requires i < |chains| && p in chains[i]
    ensures p in Members(chains)
  {
    if i < |chains| - 1 {
      InMembers(chains[..|chains| - 1], i, p);
    }
  }

  lemma {:induction false} MembersAt(chains: seq<seq<Ptr>>, p: Ptr) returns (i: nat)
    requires p in Members(chains)
    ensures i < |chains| && p in chains[i]
  {
    i := |chains| - 1;
    if p !in chains[i] {
      i := MembersAt(chains[..i], p);
    }
  }

  // Members after one chain is replaced by another.
  lemma MembersUpdate(chains: seq<seq<Ptr>>, i: nat, s: seq<Ptr>, q: Ptr)
    requires i < |chains|
    ensures q in s ==> q in Members(chains[i := s])
    ensures q !in s && q !in chains[i] ==> (q in Members(chains[i := s]) <==> q in Members(chains))
    ensures q !in s && q in Members(chains[i := s]) ==> exists x :: 0 <= x < |chains| && x != i && q in chains[x]
  {
    hide Members;
    var c2 := chains[i := s];
    if q in s {
      InMembers(c2, i, q);
    } else {
      if q in Members(c2) {
        var x := MembersAt(c2, q);
        assert x != i && q in chains[x];
        InMembers(chains, x, q);
      }
      if q in Members(chains) && q !in chains[i] {
        var x := MembersAt(chains, q);
        assert c2[x] == chains[x];
        InMembers(c2, x, q);
      }
    }
  }

  ghost function Total(chains: seq<seq<Ptr>>): nat {
    if chains == [] then 0 else Total(chains[..|chains| - 1]) + |chains[|chains| - 1]|
  }

  lemma {:induction false} TotalUpdate(chains: seq<seq<Ptr>>, i: nat, s: seq<Ptr>)
    requires i < |chains|
    ensures Total(chains[i := s]) == Total(chains) - |chains[i]| + |s|
  {
    var n := |chains| - 1;
    if i < n {
      assert chains[i := s][..n] == chains[..n][i := s];
      TotalUpdate(chains[..n], i, s);
    } else {
      assert chains[i := s][..n] == chains[..n];
    }
  }

  lemma {:induction false} TotalEmpty(chains: seq<seq<Ptr>>)
    requires forall i :: 0 <= i < |chains| ==> chains[i] == []
    ensures Total(chains) == 0
  {
    if chains != [] {
      TotalEmpty(chains[..|chains| - 1]);
    }
  }

  // The records of a chain have the right hash value.
  ghost predicate HashTo(i: nat, log: int, key: map<Ptr, Key>, s: seq<Ptr>) {
    forall p <- s :: p in key && log >= 0 && Hash(key[p], log) == i
  }

  ghost predicate Hashed(log: int, key: map<Ptr, Key>, c: seq<seq<Ptr>>) {
    forall i :: 0 <= i < |c| ==> HashTo(i, log, key, c[i])
  }

  // Every chain is well linked and holds records of the right hash value only.
  ghost predicate Chained(heads: seq<Ptr>, log: int, next: map<Ptr, Ptr>, key: map<Ptr, Key>, chains: seq<seq<Ptr>>) {
    && log >= -1 && |heads| == |chains| == Size(log)
    && (forall i :: 0 <= i < |chains| ==> Linked(next, heads[i], chains[i]))
    && Hashed(log, key, chains)
  }

  lemma ChainedAt(heads: seq<Ptr>, log: int, next: map<Ptr, Ptr>, key: map<Ptr, Key>, chains: seq<seq<Ptr>>, i: nat)
    requires Chained(heads, log, next, key, chains) && i < |chains|
    ensures |heads| == |chains| && Linked(next, heads[i], chains[i])
  {
  }

  // No key twice.
  ghost predicate KeysUnique(key: map<Ptr, Key>, members: set<Ptr>) {
    forall p, q :: p in members && q in members && p in key && q in key && key[p] == key[q] ==> p == q
  }

  lemma ChainedInsert(heads: seq<Ptr>, log: int, next: map<Ptr, Ptr>, key: map<Ptr, Key>, chains: seq<seq<Ptr>>,
                      p: Ptr, k: Key)
    requires Chained(heads, log, next, key, chains) && log >= 0
    requires p != 0 && p !in Members(chains)
    ensures var i := Hash(k, log);
            && Chained(heads[i := p], log, next[p := heads[i]], key[p := k], chains[i := [p] + chains[i]])
            && Members(chains[i := [p] + chains[i]]) == Members(chains) + {p}
            && Total(chains[i := [p] + chains[i]]) == Total(chains) + 1
  {
    var i := Hash(k, log);
    var c2 := chains[i := [p] + chains[i]];
    var n2 := next[p := heads[i]];
    hide Hash, HashTo, Total, Members, Linked;
    forall x | 0 <= x < |chains| ensures p !in chains[x] {
      if p in chains[x] { InMembers(chains, x, p); }
    }
    assert Linked(next, heads[i], chains[i]);
    LinkedCons(next, heads[i], chains[i], p);
    forall j | 0 <= j < |c2| ensures Linked(n2, heads[i := p][j], c2[j]) && HashTo(j, log, key[p := k], c2[j]) {
      assert HashTo(j, log, key, chains[j]);
      if j != i {
        LinkedIn(next, heads[j], chains[j]);
        LinkedFrame(next, n2, heads[j], chains[j]);
      }
      HashToInsert(j, log, key, chains[j], p, k);
    }
    TotalUpdate(chains, i, [p] + chains[i]);
    MembersInsert(chains, i, p);
  }

  lemma HashToInsert(i: nat, log: int, key: map<Ptr, Key>, s: seq<Ptr>, p: Ptr, k: Key)
    requires HashTo(i, log, key, s) && log >= 0 && p !in s
    ensures HashTo(i, log, key[p := k], s)
    ensures Hash(k, log) == i ==> HashTo(i, log, key[p := k], [p] + s)
  {
    hide Hash;
    assert forall q :: q in [p] + s ==> q == p || q in s;
  }

  lemma MembersInsert(chains: seq<seq<Ptr>>, i: nat, p: Ptr)
    requires i < |chains|
    ensures Members(chains[i := [p] + chains[i]]) == Members(chains) + {p}
  {
    hide Members;
    forall q ensures q in Members(chains[i := [p] + chains[i]]) <==> q in Members(chains) + {p} {
      MembersUpdate(chains, i, [p] + chains[i], q);
      if q in chains[i] { InMembers(chains, i, q); }
    }
  }

  lemma WithoutIn(s: seq<Ptr>, j: nat, q: Ptr)
    requires j < |s| && Distinct(s)
    ensures q in Without(s, j) <==> q in s && q != s[j]
  {
    if q in s && q != s[j] {
      var n :| 0 <= n < |s| && s[n] == q;
      assert Without(s, j)[if n < j then n else n - 1] == q;
    }
  }

  lemma MembersUnlink(chains: seq<seq<Ptr>>, i: nat, j: nat)
    requires i < |chains| && j < |chains[i]|
    requires Distinct(chains[i])
    requires forall x :: 0 <= x < |chains| && x != i ==> chains[i][j] !in chains[x]
    ensures Members(chains[i := Without(chains[i], j)]) == Members(chains) - {chains[i][j]}
    ensures chains[i][j] in Members(chains)
  {
    hide Members, Without;
    InMembers(chains, i, chains[i][j]);
    forall q ensures q in Members(chains[i := Without(chains[i], j)]) <==> q in Members(chains) - {chains[i][j]} {
      WithoutIn(chains[i], j, q);
      MembersUpdate(chains, i, Without(chains[i], j), q);
      if q in chains[i] { InMembers(chains, i, q); }
    }
  }

  // The other chains do not notice.
  lemma UnlinkOther(heads: seq<Ptr>, log: int, next: map<Ptr, Ptr>, key: map<Ptr, Key>, chains: seq<seq<Ptr>>, i: nat,
                    j: nat, k: nat)
    requires Chained(heads, log, next, key, chains) && i < |chains| && j < |chains[i]|
    requires k < |chains| && k != i && chains[i][j] in next
    ensures Linked(Unlinked(next, chains[i], j), heads[k], chains[k])
    ensures chains[i][j] !in chains[k]
  {
    hide Hash, HashTo, Linked;
    var s := chains[i];
    assert s[j] in s && (j > 0 ==> s[j - 1] in s);
    if s[j] in chains[k] { InOneChain(log, key, chains, i, k, s[j]); }
    if j > 0 && s[j - 1] in chains[k] { InOneChain(log, key, chains, i, k, s[j - 1]); }
    LinkedIn(next, heads[k], chains[k]);
    LinkedFrame(next, Unlinked(next, s, j), heads[k], chains[k]);
  }

  lemma ChainedUnlink(heads: seq<Ptr>, log: int, next: map<Ptr, Ptr>, key: map<Ptr, Key>, chains: seq<seq<Ptr>>,
                      i: nat, j: nat)
    requires Chained(heads, log, next, key, chains) && i < |chains| && j < |chains[i]|
    ensures chains[i][j] in next && (j > 0 ==> chains[i][j - 1] in next)
    ensures Chained(if j == 0 then heads[i := next[chains[i][j]]] else heads, log, Unlinked(next, chains[i], j), key,
                    chains[i := Without(chains[i], j)])
  {
    hide Hash, HashTo, Linked, Unlinked, Without;
    var s := chains[i];
    assert Linked(next, heads[i], s);
    LinkedIn(next, heads[i], s);
    assert s[j] in s;
    if j > 0 { assert s[j - 1] in s; }
    LinkedWithout(next, heads[i], s, j);
    var c2 := chains[i := Without(s, j)];
    var h2 := if j == 0 then heads[i := next[s[j]]] else heads;
    forall k | 0 <= k < |c2| ensures Linked(Unlinked(next, s, j), h2[k], c2[k]) {
      if k != i { UnlinkOther(heads, log, next, key, chains, i, j, k); }
    }
    assert HashTo(i, log, key, s);
    SubHashTo(i, log, key, s, j);
  }

  lemma UnlinkCounts(heads: seq<Ptr>, log: int, next: map<Ptr, Ptr>, key: map<Ptr, Key>, chains: seq<seq<Ptr>>,
                     i: nat, j: nat)
    requires Chained(heads, log, next, key, chains) && i < |chains| && j < |chains[i]|
    ensures Members(chains[i := Without(chains[i], j)]) == Members(chains) - {chains[i][j]}
    ensures chains[i][j] in Members(chains)
    ensures Total(chains[i := Without(chains[i], j)]) == Total(chains) - 1
  {
    hide Hash, HashTo, Total, Members, Unlinked;
    assert Linked(next, heads[i], chains[i]);
    LinkedIn(next, heads[i], chains[i]);
    assert chains[i][j] in chains[i] && chains[i][j] in next;
    TotalUpdate(chains, i, Without(chains[i], j));
    hide Linked;
    forall k | 0 <= k < |chains| && k != i ensures chains[i][j] !in chains[k] {
      UnlinkOther(heads, log, next, key, chains, i, j, k);
    }
    MembersUnlink(chains, i, j);
  }

  lemma SubHashTo(i: nat, log: int, key: map<Ptr, Key>, s: seq<Ptr>, j: nat)
    requires HashTo(i, log, key, s) && j < |s|
    ensures HashTo(i, log, key, Without(s, j))
  {
    assert forall p :: p in Without(s, j) ==> p in s;
  }

  // Changing the link of a record that is in no chain changes no chain.
  lemma ChainedFrame(heads: seq<Ptr>, log: int, next: map<Ptr, Ptr>, key: map<Ptr, Key>, chains: seq<seq<Ptr>>,
                     p: Ptr, x: Ptr)
    requires Chained(heads, log, next, key, chains) && p !in Members(chains)
    ensures Chained(heads, log, next[p := x], key, chains)
  {
    hide Hash, Linked, Members, Total;
    forall i | 0 <= i < |chains| ensures Linked(next[p := x], heads[i], chains[i]) {
      if p in chains[i] { InMembers(chains, i, p); }
      LinkedIn(next, heads[i], chains[i]);
      LinkedFrame(next, next[p := x], heads[i], chains[i]);
    }
  }

  class Table {
    var heads: seq<Ptr>
    var log: int                   // binary log of the number of headers, or -1
    var next: map<Ptr, Ptr>
    var key: map<Ptr, Key>
    var entries: nat
    ghost var chains: seq<seq<Ptr>>

    ghost predicate Valid()
      reads this
    {
      Chained(heads, log, next, key, chains) && entries == Total(chains)
    }

    ghost function Recs(): set<Ptr>
      reads this
    {
      Members(chains)
    }

    constructor ()
      ensures Valid() && Recs() == {} && log == -1 && next == map[] && key == map[]
    {
      heads, log, next, key, entries, chains := [], -1, map[], map[], 0, [];
    }

    lemma Step(i: nat, n: nat)
      requires Valid() && i < |chains| && n < |chains[i]|
      ensures var p := chains[i][n];
              p != 0 && p in next && next[p] == At(chains[i], n + 1) && p in Recs() && p in key && log >= 0
    {
      assert Linked(next, heads[i], chains[i]);
      LinkedStep(next, heads[i], chains[i], n);
      InMembers(chains, i, chains[i][n]);
      InKey(log, key, chains, i, n);
    }

    // Search one chain for a key: curr is the first record with it, and prev the one before; 0 if none.
    method Find(k: Key) returns (i: nat, prev: Ptr, curr: Ptr, ghost j: nat)
      requires Valid() && log >= 0
      ensures i == Hash(k, log) && i < |chains| && j <= |chains[i]| && curr == At(chains[i], j)
      ensures prev == if j == 0 then 0 else chains[i][j - 1]
      ensures if curr == 0 then j == |chains[i]| else j < |chains[i]| && curr in Recs() && key[curr] == k
      ensures curr == 0 ==> forall p <- Recs() :: p in key && key[p] != k
    {
      hide Hash, HashTo, Total, Members, Linked;
      i := Hash(k, log);
      prev, curr, j := 0, heads[i], 0;
      assert Linked(next, heads[i], chains[i]);
      LinkedIn(next, heads[i], chains[i]);
      while curr != 0
        invariant j <= |chains[i]| && curr == At(chains[i], j)
        invariant prev == if j == 0 then 0 else chains[i][j - 1]
        invariant forall n :: 0 <= n < j ==> chains[i][n] in key && key[chains[i][n]] != k
        decreases |chains[i]| - j
      {
        InKey(log, key, chains, i, j);
        if key[curr] == k {
          InMembers(chains, i, curr);
          return;
        }
        LinkedStep(next, heads[i], chains[i], j);
        prev := curr;
        curr := next[curr];
        j := j + 1;
      }
      if j < |chains[i]| { LinkedStep(next, heads[i], chains[i], j); assert false; }
      forall p | p in Recs() ensures p in key && key[p] != k {
        var x := MembersAt(chains, p);
        var n :| 0 <= n < |chains[x]| && chains[x][n] == p;
        InKey(log, key, chains, x, n);
      }
    }

    // Unlink record curr, which follows prev in chain i, or starts it if prev is 0.
    method Unlink(i: nat, prev: Ptr, curr: Ptr, ghost j: nat)
      requires Valid() && i < |chains| && j < |chains[i]| && curr == chains[i][j]
      requires prev == if j == 0 then 0 else chains[i][j - 1]
      modifies `heads, `next, `entries, `chains
      ensures Valid() && chains == old(chains)[i := Without(old(chains)[i], j)]
      ensures Recs() == old(Recs()) - {curr} && curr in old(Recs()) && entries == old(entries) - 1
      ensures next.Keys == old(next).Keys && curr in next && next[curr] == old(next)[curr]
      ensures forall p :: p in next && p !in old(Recs()) ==> next[p] == old(next)[p]
    {
      hide Chained, Linked, Members, Total, Without;
      ChainedUnlink(heads, log, next, key, chains, i, j);
      UnlinkCounts(heads, log, next, key, chains, i, j);
      ChainedAt(heads, log, next, key, chains, i);
      LinkedIn(next, heads[i], chains[i]);
      if j > 0 { InMembers(chains, i, prev); }
      if prev == 0 {
        heads := heads[i := next[curr]];
      } else {
        next := next[prev := next[curr]];
      }
      chains := chains[i := Without(chains[i], j)];
      entries := entries - 1;
    }

    // Put a record at the front of the chain its key belongs to.
    method Insert(p: Ptr, k: Key)
      requires Valid() && log >= 0 && p != 0 && p !in Recs()
      modifies `heads, `next, `key, `entries, `chains
      ensures Valid() && Recs() == old(Recs()) + {p} && entries == old(entries) + 1
      ensures key == old(key)[p := k] && next == old(next)[p := old(heads)[Hash(k, log)]]
      ensures chains == old(chains)[Hash(k, log) := [p] + old(chains)[Hash(k, log)]]
    {
      ChainedInsert(heads, log, next, key, chains, p, k);
      var i := Hash(k, log);
      next := next[p := heads[i]];
      heads := heads[i := p];
      key := key[p := k];
      chains := chains[i := [p] + chains[i]];
      entries := entries + 1;
    }

    // GC_grow_table: double the table, relinking every record into the chain of its new hash value.
    // alloc says whether a new table can be had; not ok means the collector aborted.
    method Grow(alloc: bool) returns (ok: bool)
      requires Valid()
      modifies `heads, `log, `next, `chains
      ensures ok <==> alloc || old(heads) != []
      ensures Valid() && Recs() == old(Recs()) && log == old(log) + if alloc then 1 else 0
      ensures next.Keys == old(next).Keys && forall p :: p in next && p !in Recs() ==> next[p] == old(next)[p]
    {
      if !alloc {
        return heads != [];
      }
      ghost var c := chains;
      var newLog := log + 1;
      var newHeads := seq(Pow2(newLog), i => 0);
      ghost var newChains: seq<seq<Ptr>> := seq(Pow2(newLog), i => []);
      EmptyChains(newHeads, newLog, next, key, newChains);
      hide Hash, Total, Members, Linked, Hashed;
      for i := 0 to |heads|
        invariant |heads| == |c| && chains == c && heads == old(heads) && log == old(log)
        invariant Chained(newHeads, newLog, next, key, newChains)
        invariant forall j :: i <= j < |c| ==> Linked(next, heads[j], c[j])
        invariant Members(newChains) == Members(c[..i])
        invariant Total(newChains) == Total(c[..i])
        invariant next.Keys == old(next).Keys && forall p :: p in next && p !in old(Recs()) ==> next[p] == old(next)[p]
      {
        newHeads, newChains := MoveChain(i, newHeads, newLog, newChains, c);
      }
      assert c[..|heads|] == c;
      log, heads, chains := newLog, newHeads, newChains;
      ok := true;
    }

    // The inner loop: the records of chain i, one after the other, to the front of their new chains.
    method MoveChain(i: nat, heads0: seq<Ptr>, newLog: nat, ghost chains0: seq<seq<Ptr>>, ghost c: seq<seq<Ptr>>)
      returns (newHeads: seq<Ptr>, ghost newChains: seq<seq<Ptr>>)
      requires i < |heads| == |c| && Hashed(log, key, c)
      requires Chained(heads0, newLog, next, key, chains0)
      requires forall j :: i <= j < |c| ==> Linked(next, heads[j], c[j])
      requires Members(chains0) == Members(c[..i]) && Total(chains0) == Total(c[..i])
      modifies `next
      ensures Chained(newHeads, newLog, next, key, newChains)
      ensures forall j :: i < j < |c| ==> Linked(next, heads[j], c[j])
      ensures Members(newChains) == Members(c[..i + 1]) && Total(newChains) == Total(c[..i + 1])
      ensures next.Keys == old(next).Keys && forall p :: p in next && p !in Members(c) ==> next[p] == old(next)[p]
    {
      hide Hash, Total, Members, Linked, HashTo, Chained, Hashed;
      newHeads, newChains := heads0, chains0;
      var p := heads[i];
      ghost var n := 0;
      assert Linked(next, heads[i], c[i]);
      LinkedHead(next, p, c[i]);
      assert c[i][n..] == c[i];
      while p != 0
        invariant n <= |c[i]| && p == At(c[i], n)
        invariant Chained(newHeads, newLog, next, key, newChains)
        invariant Linked(next, p, c[i][n..])
        invariant forall j :: i < j < |c| ==> Linked(next, heads[j], c[j])
        invariant Members(newChains) == Members(c[..i]) + Elems(c[i][..n])
        invariant Total(newChains) == Total(c[..i]) + n
        invariant next.Keys == old(next).Keys && forall q :: q in next && q !in Members(c) ==> next[q] == old(next)[q]
        decreases |c[i]| - n
      {
        p, newHeads, newChains := MoveRecord(i, n, p, newHeads, newLog, newChains, c);
        assert c[i][..n + 1] == c[i][..n] + [c[i][n]];
        n := n + 1;
      }
      LinkedIn(next, p, c[i][n..]);
      assert c[i][..n] == c[i];
      MembersSnoc(c, i);
    }

    method MoveRecord(i: nat, ghost n: nat, p: Ptr, heads0: seq<Ptr>, newLog: nat, ghost chains0: seq<seq<Ptr>>,
                      ghost c: seq<seq<Ptr>>)
      returns (nx: Ptr, newHeads: seq<Ptr>, ghost newChains: seq<seq<Ptr>>)
      requires i < |heads| == |c| && Hashed(log, key, c)
      requires n < |c[i]| && p == c[i][n] && p != 0 && Distinct(c[i])
      requires Chained(heads0, newLog, next, key, chains0) && Linked(next, p, c[i][n..])
      requires forall j :: i < j < |c| ==> Linked(next, heads[j], c[j])
      requires Members(chains0) == Members(c[..i]) + Elems(c[i][..n])
      modifies `next
      ensures nx == At(c[i], n + 1)
      ensures Chained(newHeads, newLog, next, key, newChains) && Linked(next, nx, c[i][n + 1..])
      ensures forall j :: i < j < |c| ==> Linked(next, heads[j], c[j])
      ensures Members(newChains) == Members(chains0) + {c[i][n]} && Total(newChains) == Total(chains0) + 1
      ensures next.Keys == old(next).Keys && forall q :: q in next && q !in Members(c) ==> next[q] == old(next)[q]
    {
      hide Hash, Total, Members, Linked, HashTo, Chained, Hashed;
      InKey(log, key, c, i, n);
      LinkedNext(next, p, c[i][n..]);
      InMembers(c, i, p);
      NotMoved(c, key, log, i, n);
      ghost var next0 := next;
      nx := next[p];
      var h := Hash(key[p], newLog);
      ChainedInsert(heads0, newLog, next, key, chains0, p, key[p]);
      assert key[p := key[p]] == key;
      InRange(heads0, newLog, next, key, chains0);
      next := next[p := heads0[h]];
      newHeads := heads0[h := p];
      newChains := chains0[h := [p] + chains0[h]];
      MoveOne(c, next0, next, key, log, heads, i, n);
    }
  }

  lemma InRange(heads: seq<Ptr>, log: nat, next: map<Ptr, Ptr>, key: map<Ptr, Key>, chains: seq<seq<Ptr>>)
    requires Chained(heads, log, next, key, chains)
    ensures |heads| == |chains| == Pow2(log)
  {
  }

  lemma LinkedHead(next: map<Ptr, Ptr>, head: Ptr, s: seq<Ptr>)
    requires Linked(next, head, s)
    ensures head == At(s, 0) && (forall p <- s :: p != 0)
    ensures Distinct(s)
  {
    LinkedIn(next, head, s);
  }

  lemma LinkedNext(next: map<Ptr, Ptr>, head: Ptr, s: seq<Ptr>)
    requires Linked(next, head, s) && head != 0
    ensures |s| > 0 && s[0] == head && head != 0 && head in next && next[head] == At(s, 1)
  {
    LinkedStep(next, head, s, 0);
  }

  lemma InKey(log: int, key: map<Ptr, Key>, c: seq<seq<Ptr>>, i: nat, n: nat)
    requires Hashed(log, key, c) && i < |c| && n < |c[i]|
    ensures c[i][n] in key && log >= 0 && Hash(key[c[i][n]], log) == i
  {
    assert HashTo(i, log, key, c[i]);
    assert c[i][n] in c[i];
  }

  // A new table of empty chains.
  lemma EmptyChains(heads: seq<Ptr>, log: nat, next: map<Ptr, Ptr>, key: map<Ptr, Key>, chains: seq<seq<Ptr>>)
    requires |heads| == |chains| == Pow2(log)
    requires forall i :: 0 <= i < |chains| ==> heads[i] == 0 && chains[i] == []
    ensures Chained(heads, log, next, key, chains) && Members(chains) == {} && Total(chains) == 0
  {
    TotalEmpty(chains);
    forall p ensures p !in Members(chains) {
      if p in Members(chains) {
        var i := MembersAt(chains, p);
      }
    }
  }

  lemma MembersSnoc(c: seq<seq<Ptr>>, i: nat)
    requires i < |c|
    ensures Members(c[..i + 1]) == Members(c[..i]) + Elems(c[i])
    ensures Total(c[..i + 1]) == Total(c[..i]) + |c[i]|
  {
    assert c[..i + 1][..i] == c[..i];
  }

  lemma InOneChain(log: int, key: map<Ptr, Key>, c: seq<seq<Ptr>>, i: nat, j: nat, p: Ptr)
    requires Hashed(log, key, c) && i < |c| && j < |c| && p in c[i] && p in c[j]
    ensures i == j
  {
    assert HashTo(i, log, key, c[i]) && HashTo(j, log, key, c[j]);
  }

  // A record not reached yet is in no chain before, nor earlier in its own.
  lemma NotMoved(c: seq<seq<Ptr>>, key: map<Ptr, Key>, log: int, i: nat, n: nat)
    requires i < |c| && n < |c[i]| && Hashed(log, key, c)
    requires Distinct(c[i])
    ensures c[i][n] !in Members(c[..i]) && c[i][n] !in c[i][..n]
  {
    hide Hash, Members, Hashed;
    if c[i][n] in Members(c[..i]) {
      var x := MembersAt(c[..i], c[i][n]);
      InOneChain(log, key, c, i, x, c[i][n]);
    }
  }

  lemma MoveOne(c: seq<seq<Ptr>>, next0: map<Ptr, Ptr>, next: map<Ptr, Ptr>, key: map<Ptr, Key>, log: int,
                heads: seq<Ptr>, i: nat, n: nat)
    requires i < |c| == |heads| && n < |c[i]| && c[i][n] != 0 && Linked(next0, c[i][n], c[i][n..])
    requires c[i][n] in next && next == next0[c[i][n] := next[c[i][n]]]
    requires Hashed(log, key, c)
    requires forall j :: i < j < |c| ==> Linked(next0, heads[j], c[j])
    ensures c[i][n] in next0 && Linked(next, next0[c[i][n]], c[i][n + 1..])
    ensures forall j :: i < j < |c| ==> Linked(next, heads[j], c[j])
  {
    var p := c[i][n];
    var s := c[i][n..];
    hide Linked, Hashed;
    assert s[0] == p && p in c[i];
    LinkedIn(next0, p, s);
    LinkedNext(next0, p, s);
    LinkedWithout(next0, p, s, 0);
    assert Without(s, 0) == c[i][n + 1..];
    assert p !in c[i][n + 1..] by {
      WithoutIn(s, 0, p);
    }
    LinkedIn(next0, next0[p], c[i][n + 1..]);
    LinkedFrame(next0, next, next0[p], c[i][n + 1..]);
    forall j | i < j < |c| ensures Linked(next, heads[j], c[j]) {
      if p in c[j] {
        InOneChain(log, key, c, i, j, p);
      }
      LinkedIn(next0, heads[j], c[j]);
      LinkedFrame(next0, next, heads[j], c[j]);
    }
  }
}
