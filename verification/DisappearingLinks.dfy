/** Disappearing links (finalize.c): words that GC_finalize clears when the object they refer to dies. */
module DisappearingLinks {
  import opened Common
  import opened MarkDefs
  import opened HashChains
  import opened Finalize

  const ALIGNMENT: nat := 8

  // What the calls report; NoTable means that the collector aborted for want of memory.
  datatype Outcome = Success | Duplicate | BadArgument | NoTable | NoRecord

  // What comes of unregistering one: it was removed, it was not there, or address zero was read for want of a table.
  datatype Removal = Removed | NotFound | NullRead

  // The registered links, and the object each refers to.
  type Links = map<Key, Obj>

  ghost predicate ShownAt(key: map<Ptr, Key>, target: map<Ptr, Obj>, links: Links, p: Ptr) {
    p in key && p in target && key[p] in links && links[key[p]] == target[p]
  }

  ghost predicate HasRecord(recs: set<Ptr>, key: map<Ptr, Key>, l: Key) {
    exists p :: p in recs && p in key && key[p] == l
  }

  // One record for every link.
  ghost predicate Shows(recs: set<Ptr>, key: map<Ptr, Key>, target: map<Ptr, Obj>, links: Links) {
    && KeysUnique(key, recs) && (forall p <- recs :: ShownAt(key, target, links, p))
    && forall l <- links :: HasRecord(recs, key, l)
  }

  // The links that a pass takes away: dead says so of the link and its object.
  ghost function Alive(links: Links, dead: (Key, Obj) -> bool): Links {
    map l | l in links && !dead(l, links[l]) :: links[l]
  }

  // The words of the links taken away are cleared.
  ghost predicate Cleared(mem: map<nat, nat>, mem2: map<nat, nat>, links: Links, dead: (Key, Obj) -> bool) {
    forall a: nat ::
      if a in links && dead(a, links[a]) then a in mem2 && mem2[a] == 0
      else (a in mem2 <==> a in mem) && (a in mem ==> mem2[a] == mem[a])
  }

  lemma ShowsSet(recs: set<Ptr>, key: map<Ptr, Key>, target: map<Ptr, Obj>, links: Links, p: Ptr, obj: Obj)
    requires Shows(recs, key, target, links) && p in recs
    ensures p in key && Shows(recs, key, target[p := obj], links[key[p] := obj]) && key[p] in links
  {
    assert ShownAt(key, target, links, p);
    var target2, links2 := target[p := obj], links[key[p] := obj];
    forall r <- recs ensures ShownAt(key, target2, links2, r) {
      assert ShownAt(key, target, links, r);
    }
    forall l <- links2 ensures HasRecord(recs, key, l) {
      assert l in links;
    }
  }

  lemma ShowsAdd(recs: set<Ptr>, key: map<Ptr, Key>, target: map<Ptr, Obj>, links: Links, p: Ptr, link: Key, obj: Obj)
    requires Shows(recs, key, target, links) && p !in recs && forall r <- recs :: r in key && key[r] != link
    ensures Shows(recs + {p}, key[p := link], target[p := obj], links[link := obj]) && link !in links
  {
    var key2, target2, links2 := key[p := link], target[p := obj], links[link := obj];
    assert link in links ==> HasRecord(recs, key, link);
    forall r <- recs + {p} ensures ShownAt(key2, target2, links2, r) {
      if r != p { assert ShownAt(key, target, links, r); }
    }
    forall l <- links2 ensures HasRecord(recs + {p}, key2, l) {
      if l == link {
        assert key2[p] == l;
      } else {
        assert HasRecord(recs, key, l);
        var r :| r in recs && r in key && key[r] == l;
        assert key2[r] == l;
      }
    }
  }

  lemma ShowsDrop(recs: set<Ptr>, key: map<Ptr, Key>, target: map<Ptr, Obj>, links: Links, p: Ptr)
    requires Shows(recs, key, target, links) && p in recs
    ensures p in key && Shows(recs - {p}, key, target, links - {key[p]}) && key[p] in links
  {
    assert ShownAt(key, target, links, p);
    var links2 := links - {key[p]};
    forall r <- recs - {p} ensures ShownAt(key, target, links2, r) {
      assert ShownAt(key, target, links, r);
    }
    forall l <- links2 ensures HasRecord(recs - {p}, key, l) {
      assert HasRecord(recs, key, l);
      var r :| r in recs && r in key && key[r] == l;
      assert r in recs - {p};
    }
  }

  class LinkTable {
    const t: Table
    var target: map<Ptr, Obj>        // dl_hidden_obj
    var mem: map<nat, nat>           // the words of memory
    var last: Ptr                    // the newest record
    ghost var links: Links

    ghost predicate Valid()
      reads this, t
    {
      && t.Valid() && Shows(t.Recs(), t.key, target, links)
      && (forall p <- t.key :: p <= last)
    }

    constructor ()
      ensures Valid() && links == map[] && mem == map[] && last == 0 && fresh(t)
    {
      t := new Table();
      target, mem, last, links := map[], map[], 0, map[];
    }

    // GC_general_register_disappearing_link, up to where it gives up the lock because no memory for a record was had.
    // If GC_oom_fn then finds some, the call goes on with Put, whatever others have done to the table meanwhile.
    method Register(link: Key, obj: Obj, alloc: bool, record: bool) returns (r: Outcome)
      requires Valid()
      modifies this, t
      ensures r == BadArgument <==> link % ALIGNMENT != 0 || link == 0
      ensures r == BadArgument ==> unchanged(this) && unchanged(t)
      ensures r == NoTable ==> !alloc && old(t.log) < 0
      ensures r == Success || r == Duplicate ==> Valid() && links == old(links)[link := obj] && mem == old(mem)
      ensures r == Duplicate ==> link in old(links)
      ensures r == Success ==> link !in old(links) && record
      ensures r == NoRecord ==> Valid() && t.log >= 0 && link !in old(links) && !record
      ensures r == NoRecord ==> links == old(links) && mem == old(mem)
    {
      if link % ALIGNMENT != 0 || link == 0 {
        return BadArgument;
      }
      var ok := MakeRoom(alloc);
      if ok {
        r := Put(link, obj, record);
      } else {
        r := NoTable;
      }
    }

    // Grow the table if there is none or it has more entries than headers.
    method MakeRoom(alloc: bool) returns (ok: bool)
      requires Valid()
      modifies t
      ensures ok ==> Valid() && t.log >= 0
      ensures !ok ==> !alloc && old(t.log) < 0
      ensures t.log == old(t.log) + if alloc && old(t.log == -1 || t.entries > Pow2(t.log)) then 1 else 0
    {
      HasTable();
      hide Chained, Shows, Total, Members;
      ok := true;
      if t.log == -1 || t.entries > Pow2(t.log) {
        ok := t.Grow(alloc);
      }
    }

    // The rest: the record of the link is changed, or a new one is put into the table if there is memory for it.
    method Put(link: Key, obj: Obj, record: bool) returns (r: Outcome)
      requires Valid() && t.log >= 0
      modifies this, t
      ensures Valid() && t.log >= 0 && mem == old(mem)
      ensures r == if link in old(links) then Duplicate else if record then Success else NoRecord
      ensures links == if r == NoRecord then old(links) else old(links)[link := obj]
    {
      hide Chained, Shows, Total, Members;
      var i, prev, curr;
      ghost var j;
      i, prev, curr, j := t.Find(link);
      if curr != 0 {
        ShowsSet(t.Recs(), t.key, target, links, curr, obj);
        target, links := target[curr := obj], links[link := obj];
        r := Duplicate;
      } else {
        NewRecord();
        ShowsAdd(t.Recs(), t.key, target, links, last + 1, link, obj);
        r := if record then Success else NoRecord;
        if record {
          target, last, links := target[last + 1 := obj], last + 1, links[link := obj];
          t.Insert(last, link);
        }
      }
    }

    lemma HasTable()
      requires t.Valid()
      ensures t.log >= -1 && (t.log == -1 <==> t.heads == [])
    {
    }

    lemma NewRecord()
      requires Valid()
      ensures last + 1 !in t.Recs() && last + 1 !in t.key
    {
      assert forall p <- t.Recs() :: ShownAt(t.key, target, links, p);
    }

    // GC_unregister_disappearing_link.  It looks into the table before asking whether there is one.
    method Unregister(link: Key) returns (r: Removal)
      requires Valid()
      modifies `links, t
      ensures Valid()
      ensures r == NullRead <==> link % ALIGNMENT == 0 && old(t.log) < 0
      ensures r == Removed <==> link % ALIGNMENT == 0 && link in old(links)
      ensures links == if r == Removed then old(links) - {link} else old(links)
    {
      hide Chained, Shows, Total, Members;
      if link % ALIGNMENT != 0 {
        return NotFound;
      }
      HasTable();
      if t.log < 0 {
        NoRecords();
        return NullRead;
      }
      var i, prev, curr;
      ghost var j;
      i, prev, curr, j := t.Find(link);
      if curr == 0 {
        NotRegistered(link);
        return NotFound;
      }
      ShowsDrop(t.Recs(), t.key, target, links, curr);
      t.Unlink(i, prev, curr, j);
      links := links - {link};
      r := Removed;
    }

    // Without a table nothing is registered.
    lemma NoRecords()
      requires Valid() && t.log < 0
      ensures links == map[]
    {
      assert t.Recs() == {};
      forall l: Key ensures l !in links { NotRegistered(l); }
    }

    lemma NotRegistered(link: Key)
      requires Valid() && forall p <- t.Recs() :: p in t.key && t.key[p] != link
      ensures link !in links
    {
      assert link in links ==> HasRecord(t.Recs(), t.key, link);
    }

    /****** the passes of GC_finalize over the links ******/

    // The pass before finalizers are queued: links to unmarked objects are cleared and forgotten.
    method Disappear(marked: set<Obj>)
      requires Valid()
      modifies `mem, `links, t`heads, t`next, t`entries, t`chains
      ensures Valid() && links == Alive(old(links), (l: Key, o: Obj) => o !in marked)
      ensures Cleared(old(mem), mem, old(links), (l: Key, o: Obj) => o !in marked)
    {
      Sweep((l: Key, o: Obj) => o !in marked, true);
    }

    // The pass at the end: links in unmarked objects are forgotten.  base is GC_base.
    method Dangle(marked: set<Obj>, base: Key -> Obj)
      requires Valid()
      modifies `mem, `links, t`heads, t`next, t`entries, t`chains
      ensures Valid() && links == Alive(old(links), (l: Key, o: Obj) => base(l) != 0 && base(l) !in marked)
      ensures mem == old(mem)
    {
      Sweep((l: Key, o: Obj) => base(l) != 0 && base(l) !in marked, false);
    }

    // The form of both: go through all chains, unlink the records that are dead, and clear their words or not.
    method Sweep(dead: (Key, Obj) -> bool, clear: bool)
      requires Valid()
      modifies `mem, `links, t`heads, t`next, t`entries, t`chains
      ensures Valid() && links == Alive(old(links), dead)
      ensures if clear then Cleared(old(mem), mem, old(links), dead) else mem == old(mem)
    {
      hide Chained, Shows, Total, Members, Swept, Hashed;
      ghost var orig, recs0, links0, mem0 := t.chains, t.Recs(), links, mem;
      Counted();
      SweptNone(t.key, target, recs0, links0, mem0, dead, clear);
      for i := 0 to |t.heads|
        invariant |t.heads| == |orig| == |t.chains| && forall k :: i <= k < |orig| ==> t.chains[k] == orig[k]
        invariant Valid()
        invariant Swept(t.key, target, recs0, links0, mem0, dead, clear, Members(orig[..i]), t.Recs(), links, mem)
      {
        SweepChain(i, orig, recs0, links0, mem0, dead, clear);
        MembersSnoc(orig, i);
      }
      assert orig[..|orig|] == orig;
      SweptAll(t.key, target, recs0, links0, mem0, dead, clear, t.Recs(), links, mem);
    }

    lemma Counted()
      requires t.Valid()
      ensures |t.heads| == |t.chains| && Hashed(t.log, t.key, t.chains)
    {
    }

    method SweepChain(i: nat, ghost orig: seq<seq<Ptr>>, ghost recs0: set<Ptr>, ghost links0: Links,
                      ghost mem0: map<nat, nat>,
                      dead: (Key, Obj) -> bool, clear: bool)
      requires Valid() && i < |t.heads| == |orig| == |t.chains| && t.chains[i] == orig[i]
      requires Hashed(t.log, t.key, orig) && recs0 == Members(orig)
      requires Swept(t.key, target, recs0, links0, mem0, dead, clear, Members(orig[..i]), t.Recs(), links, mem)
      modifies `mem, `links, t`heads, t`next, t`entries, t`chains
      ensures Valid() && |t.heads| == |t.chains| == |orig|
      ensures forall k :: i < k < |orig| ==> t.chains[k] == old(t.chains)[k]
      ensures Swept(t.key, target, recs0, links0, mem0, dead, clear, Members(orig[..i]) + Elems(orig[i]), t.Recs(),
                links, mem)
    {
      var prev, curr := 0, t.heads[i];
      ghost var c := orig[i];
      ghost var n: nat, j: nat := 0, 0;
      StartFacts(i, c, Members(orig[..i]));
      hide *;
      while curr != 0
        invariant n <= |c| && curr == At(c, n)
        invariant curr == 0 <==> n == |c|
        invariant Valid() && |t.heads| == |orig|
        invariant |t.chains| == |orig| && j <= |t.chains[i]| && t.chains[i][j..] == c[n..]
        invariant forall k :: i < k < |orig| ==> t.chains[k] == old(t.chains)[k]
        invariant prev == if j == 0 then 0 else t.chains[i][j - 1]
        invariant Swept(t.key, target, recs0, links0, mem0, dead, clear, Seen(Members(orig[..i]), c, n), t.Recs(),
                    links, mem)
        decreases |c| - n
      {
        VisitNext(t.log, t.key, orig, i, n);
        TailStep(t.chains[i], j, c, n);
        prev, curr, j := SweepOne(i, prev, curr, j, recs0, links0, mem0, dead, clear, Seen(Members(orig[..i]), c, n));
        n := n + 1;
      }
    }

    lemma StartFacts(i: nat, c: seq<Ptr>, done: set<Ptr>)
      requires Valid() && i < |t.chains| && t.chains[i] == c
      ensures |t.heads| == |t.chains| && t.heads[i] == At(c, 0) && (t.heads[i] == 0 <==> c == [])
      ensures Seen(done, c, 0) == done && Seen(done, c, |c|) == done + Elems(c) && c[0..] == c
      ensures Distinct(c) && forall p <- c :: p != 0
    {
      assert Linked(t.next, t.heads[i], c);
      LinkedIn(t.next, t.heads[i], c);
      ChainStart(t.next, t.heads[i], c, done);
    }

    // One record, number j0 of chain i as it is now.  Number j comes next.
    method SweepOne(i: nat, prev0: Ptr, curr: Ptr, ghost j0: nat, ghost recs0: set<Ptr>, ghost links0: Links,
                    ghost mem0: map<nat, nat>, dead: (Key, Obj) -> bool, clear: bool, ghost done: set<Ptr>)
      returns (prev: Ptr, next: Ptr, ghost j: nat)
      requires Valid() && i < |t.chains| && j0 < |t.chains[i]| && curr == t.chains[i][j0]
      requires prev0 == if j0 == 0 then 0 else t.chains[i][j0 - 1]
      requires Swept(t.key, target, recs0, links0, mem0, dead, clear, done, t.Recs(), links, mem)
      modifies `mem, `links, t`heads, t`next, t`entries, t`chains
      ensures Valid() && next == At(old(t.chains)[i], j0 + 1)
      ensures |t.heads| == |t.chains| == |old(t.chains)|
      ensures j <= |t.chains[i]| && t.chains[i][j..] == old(t.chains)[i][j0 + 1..]
      ensures prev == if j == 0 then 0 else t.chains[i][j - 1]
      ensures forall k :: 0 <= k < |t.chains| && k != i ==> t.chains[k] == old(t.chains)[k]
      ensures Swept(t.key, target, recs0, links0, mem0, dead, clear, done + {curr}, t.Recs(), links, mem)
    {
      hide Chained, Shows, Total, Members, Swept, Without;
      t.Step(i, j0);
      WithoutTail(t.chains[i], j0);
      Counted();
      ShowsDrop(t.Recs(), t.key, target, links, curr);
      HasTarget(curr);
      SweptNext(t.key, target, recs0, links0, mem0, dead, clear, done, t.Recs(), links, mem, curr);
      next := t.next[curr];
      prev, j := curr, j0 + 1;
      if dead(t.key[curr], target[curr]) {
        prev, j := prev0, j0;
        if clear { mem := mem[t.key[curr] := 0]; }
        links := links - {t.key[curr]};
        t.Unlink(i, prev, curr, j);
        Counted();
      }
    }

    lemma HasTarget(p: Ptr)
      requires Valid() && p in t.Recs()
      ensures p in t.key && p in target
    {
      assert ShownAt(t.key, target, links, p);
    }
  }

  // Where a pass stands once it has seen the records in done.
  ghost predicate Swept(key: map<Ptr, Key>, target: map<Ptr, Obj>, recs0: set<Ptr>, links0: Links, mem0: map<nat, nat>,
                        dead: (Key, Obj) -> bool, clear: bool, done: set<Ptr>, recs: set<Ptr>, links: Links,
                            mem: map<nat, nat>)
  {
    && Shows(recs, key, target, links) && recs <= recs0
    && (forall l <- links :: l in links0 && links[l] == links0[l])
    && (forall l <- links0 :: l in links || dead(l, links0[l]))
    && (forall p :: p in done && p in recs ==> p in key && p in target && !dead(key[p], target[p]))
    && forall a: nat ::
         if clear && a in links0 && a !in links then a in mem && mem[a] == 0
         else (a in mem <==> a in mem0) && (a in mem0 ==> mem[a] == mem0[a])
  }

  lemma SweptNone(key: map<Ptr, Key>, target: map<Ptr, Obj>, recs0: set<Ptr>, links0: Links, mem0: map<nat, nat>,
                  dead: (Key, Obj) -> bool, clear: bool)
    requires Shows(recs0, key, target, links0)
    ensures Swept(key, target, recs0, links0, mem0, dead, clear, {}, recs0, links0, mem0) && Members([]) == {}
  {
  }

  // The record p is seen next.
  lemma SweptNext(key: map<Ptr, Key>, target: map<Ptr, Obj>, recs0: set<Ptr>, links0: Links, mem0: map<nat, nat>,
                  dead: (Key, Obj) -> bool, clear: bool, done: set<Ptr>, recs: set<Ptr>, links: Links,
                      mem: map<nat, nat>, p: Ptr)
    requires Swept(key, target, recs0, links0, mem0, dead, clear, done, recs, links, mem) && p in recs && p in key
    requires p in target
    ensures if dead(key[p], target[p])
            then Swept(key, target, recs0, links0, mem0, dead, clear, done + {p}, recs - {p}, links - {key[p]},
                       if clear then mem[key[p] := 0] else mem)
            else Swept(key, target, recs0, links0, mem0, dead, clear, done + {p}, recs, links, mem)
  {
    assert ShownAt(key, target, links, p);
    ShowsDrop(recs, key, target, links, p);
    hide Shows;
  }

  lemma SweptAll(key: map<Ptr, Key>, target: map<Ptr, Obj>, recs0: set<Ptr>, links0: Links, mem0: map<nat, nat>,
                 dead: (Key, Obj) -> bool, clear: bool, recs: set<Ptr>, links: Links, mem: map<nat, nat>)
    requires Swept(key, target, recs0, links0, mem0, dead, clear, recs0, recs, links, mem)
    ensures links == Alive(links0, dead)
    ensures if clear then Cleared(mem0, mem, links0, dead) else mem == mem0
  {
    forall l <- links ensures !dead(l, links0[l]) {
      assert HasRecord(recs, key, l);
      var p :| p in recs && p in key && key[p] == l;
      assert ShownAt(key, target, links, p);
    }
    hide Shows;
    assert links == Alive(links0, dead);
  }
}
