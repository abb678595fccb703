/** A whole collection: marking with the world stopped, and then the queueing of finalizers, as GC_try_to_collect_inner
 *  and GC_finish_collection do it one after the other (alloc.c).  What becomes ready is described here by what was
 *  reachable before the collection began.
 */
module Cycle {
  import opened Common
  import opened MarkDefs
  import opened Marker
  import opened Collector
  import opened HashChains
  import opened Finalize
  import opened FinalizeOrder

  // The records wait for objects that the roots point to: the queue is pushed with the roots (finalize.c:84-90).
  ghost predicate QueueRooted(L: Layout, mem: map<Area, seq<Word>>, key: map<Ptr, Obj>, q: seq<Ptr>) {
    forall p <- q :: p in key && key[p] in RootTargets(L, mem)
  }

  // All records in the table were registered in the ordinary way.
  ghost predicate AllOrdinary(info: map<Ptr, Info>, recs: set<Ptr>) {
    forall p <- recs :: p in info && info[p].proc == MarkProc.Normal
  }

  // The record p waits for an object that is neither live nor led to by a registered object, itself included.
  ghost predicate Finalizable(L: Layout, mem: map<Area, seq<Word>>, key: map<Ptr, Obj>, recs: set<Ptr>,
                              live: set<Obj>, p: Ptr) {
    p in key && key[p] !in live && forall r <- recs :: r in key ==> !Leads(L, mem, key[r], key[p])
  }

  // Of the objects with records exactly the finalizable ones are on the queue es.
  ghost predicate ObjectsReady(L: Layout, mem: map<Area, seq<Word>>, key: map<Ptr, Obj>, recs: set<Ptr>,
                               live: set<Obj>, es: seq<Ptr>) {
    forall p <- recs :: p in key && (key[p] in KeysOf(key, Elems(es)) <==> Finalizable(L, mem, key, recs, live, p))
  }

  // Of the records exactly those of finalizable objects are.
  ghost predicate RecordsReady(L: Layout, mem: map<Area, seq<Word>>, key: map<Ptr, Obj>, recs: set<Ptr>,
                               live: set<Obj>, es: seq<Ptr>) {
    forall p <- recs :: p in es <==> Finalizable(L, mem, key, recs, live, p)
  }

  lemma RootsLive(m: Marker, f: Finalizers, live: set<Obj>, marked0: set<Obj>)
    requires f.m == m && m.Quiet() && marked0 <= m.L.block.Keys && live == Live(m.L, m.mem, marked0) && m.marked == live
    requires QueueRooted(f.m.L, f.m.mem, f.t.key, f.q) && f.Valid()
    ensures f.QueueMarked() && m.L.WellFormed() && Known(m.L, f.t.key, f.info, f.t.Recs())
    ensures |m.L.block.Keys - live| < INITIAL_MARK_STACK_SIZE ==> m.Spacious()
  {
    var seeds := RootTargets(m.L, m.mem) + set o <- marked0 | m.L.IsUncollectable(o);
    forall p | p in f.q ensures f.t.key[p] in live {
      SeedReachable(m.L, m.mem, seeds, f.t.key[p]);
    }
    assert forall p <- f.Where().table :: p in f.t.key;
  }

  lemma MarkedKnown(m: Marker)
    requires m.Base()
    ensures m.marked <= m.L.block.Keys
  {
  }

  lemma Consequences(L: Layout, mem: map<Area, seq<Word>>, key: map<Ptr, Obj>, info: map<Ptr, Info>, java: bool,
                     recs0: set<Ptr>, q0: seq<Ptr>, live: set<Obj>, over: set<Obj>, es: seq<Ptr>, mA: set<Obj>,
                     recs: set<Ptr>, q: seq<Ptr>, marked: set<Obj>)
    requires Finalized(L, mem, key, info, java, recs0, q0, live, over, es, mA, recs, q, marked)
    requires L.WellFormed() && Known(L, key, info, recs0)
    requires PointerClosed(L, mem, AfterFirst(L, mem, key, info, recs0, live, over))
    ensures over == {} && AllOrdinary(info, recs0) ==> ObjectsReady(L, mem, key, recs0, live, es)
    ensures over == {} && AllOrdinary(info, recs0) && (java || KeysUnique(key, recs0)) ==>
              RecordsReady(L, mem, key, recs0, live, es)
    ensures !java && AllOrdinary(info, recs0) ==> PointerClosed(L, mem, marked) && q == es + q0
    ensures live <= marked
  {
    hide Leads, PointerClosed;
    if over == {} && AllOrdinary(info, recs0) {
      forall p | p in recs0
        ensures p in key && (key[p] in KeysOf(key, Elems(es)) <==> Finalizable(L, mem, key, recs0, live, p))
        ensures java || KeysUnique(key, recs0) ==> (p in es <==> Finalizable(L, mem, key, recs0, live, p))
      {
        FinalizationOrder(L, mem, key, info, java, recs0, q0, live, es, mA, recs, q, marked, p);
      }
    }
    if !java && AllOrdinary(info, recs0) {
      forall p | p in recs0 ensures info[p].proc != NoOrder {}
      QueuedSurvive(L, mem, key, info, recs0, q0, live, over, es, mA, recs, q, marked);
      assert LooseEndsHeld(L, mem, key, info, recs0, live + Traced(L, mem, key, info, recs0));
    }
  }

  lemma UniqueMeans(f: Finalizers)
    ensures f.Unique() <==> KeysUnique(f.t.key, f.t.Recs())
  {
  }

  // A full collection and GC_finalize.  es are the records that become ready.
  method CollectAndFinalize(c: Collector, f: Finalizers, stop: nat -> bool, grow: nat -> bool, growFo: nat -> bool)
    returns (r: Outcome, ghost es: seq<Ptr>, ghost over: set<Obj>, ghost mA: set<Obj>)
    requires c.m == f.m && f.m.Base() && f.Valid() && QueueRooted(f.m.L, f.m.mem, f.t.key, f.q)
    modifies c, f.t`heads, f.t`next, f.t`key, f.t`entries, f.t`chains, f`queue, f`q,
             f.m`marked, f.m`depth, f.m`state, f.m`tooSmall, f.m`objectsAreMarked, f.m`scan, f.m`stack, f.m`extra,
             f.m.stack, f.m`dirty, f.m`grungy, f.m`rootsDirty
    ensures r == More ==> StoppedAt(stop, old(c.polls), c.polls)
    ensures r != More ==> NotStopped(stop, old(c.polls), c.polls)
    ensures f.m.FewRoots() ==> r != Abort
    ensures f.m.mem == old(f.m.mem)
    ensures r == Done ==> f.Valid() && f.m.Settling() && f.t.key == old(f.t.key) && Moved(old(f.Where()), f.Where())
    ensures r == Done ==>
              Finalized(f.m.L, f.m.mem, f.t.key, f.info, f.java, old(f.t.Recs()), old(f.q),
                        Live(f.m.L, f.m.mem, old(f.m.marked)), over, es, mA, f.t.Recs(), f.q, f.m.marked)
    ensures r == Done && |f.m.L.block.Keys - Live(f.m.L, f.m.mem, old(f.m.marked))| < INITIAL_MARK_STACK_SIZE ==>
              over == {}
    ensures r == Done && over == {} && AllOrdinary(f.info, old(f.t.Recs())) ==>
              ObjectsReady(f.m.L, f.m.mem, f.t.key, old(f.t.Recs()), Live(f.m.L, f.m.mem, old(f.m.marked)), es)
    ensures r == Done && over == {} && AllOrdinary(f.info, old(f.t.Recs())) && (f.java || old(f.Unique())) ==>
              RecordsReady(f.m.L, f.m.mem, f.t.key, old(f.t.Recs()), Live(f.m.L, f.m.mem, old(f.m.marked)), es)
    ensures r == Done && !f.java && AllOrdinary(f.info, old(f.t.Recs())) ==>
              PointerClosed(f.m.L, f.m.mem, f.m.marked) && f.q == es + old(f.q)
    ensures r == Done ==> Live(f.m.L, f.m.mem, old(f.m.marked)) <= f.m.marked
  {
    hide *;
    MarkedKnown(f.m);
    UniqueMeans(f);
    ghost var recs0, q0, key, live := f.t.Recs(), f.q, f.t.key, Live(f.m.L, f.m.mem, f.m.marked);
    ghost var marked0 := f.m.marked;
    es, over, mA := [], {}, {};
    r := c.FullCollection(stop, grow);
    if r == Done {
      RootsLive(f.m, f, live, marked0);
      var ok;
      ok, es, over, mA := f.GcFinalize(growFo);
      if ok {
        Consequences(f.m.L, f.m.mem, f.t.key, f.info, f.java, recs0, q0, live, over, es, mA, f.t.Recs(), f.q,
            f.m.marked);
      } else {
        r := Abort;
      }
    }
  }

  /****** an overflow that costs a finalizer ******/

  function UpTo(n: nat): (s: set<nat>)
    ensures forall o: nat :: o in s <==> o <= n
  {
    if n == 0 then {0} else UpTo(n - 1) + {n}
  }

  // Object 0 points to objects 1 to n, each in a block of its own, and nothing else points anywhere.
  function Hub(n: nat): Layout {
    Layout(seq(n + 1, (b: nat) => Used(Kind.Normal, [b])), map o | o in UpTo(n) :: o,
           (map o | o in UpTo(n) :: Heap(o) := if o == 0 then n else 1)[Stacks := 0],
           map w | w in UpTo(n) && w > 0 :: w as Word := w, 0, [], 1, n + 1)
  }

  function HubMemory(n: nat): map<Area, seq<Word>> {
    (map o | o in UpTo(n) :: Heap(o) := if o == 0 then seq(n, (k: nat) => k + 1) else [0])[Stacks := []]
  }

  lemma HubParts(n: nat)
    requires n > 0
    ensures var L := Hub(n);
            && |L.blocks| == n + 1 && (forall b :: 0 <= b <= n ==> L.blocks[b] == Used(Kind.Normal, [b]))
            && L.block.Keys == UpTo(n) && (forall o <- L.block :: L.block[o] == o)
            && (forall w <- L.resolve :: 1 <= w <= n && L.resolve[w] == w) && L.leastHa == 1 && L.greatestHa == n + 1
            && L.statics == 0 && L.offset == []
            && (forall o: nat :: o <= n ==> Heap(o) in L.words && L.words[Heap(o)] > 0)
    ensures forall a :: a in Hub(n).words <==> Hub(n).IsArea(a)
  {
    var L := Hub(n);
    forall a ensures a in L.words <==> L.IsArea(a) {
      match a
      case Heap(o) => assert o in UpTo(n) <==> Heap(o) in L.words;
      case _ =>
    }
  }

  lemma OneEach(L: Layout, n: nat)
    requires |L.blocks| == n + 1 && (forall b :: 0 <= b <= n ==> L.blocks[b] == Used(Kind.Normal, [b]))
    requires L.block.Keys == UpTo(n) && (forall o <- L.block :: L.block[o] == o)
    requires (forall w <- L.resolve :: 1 <= w <= n && L.resolve[w] == w) && L.leastHa == 1 && L.greatestHa == n + 1
    requires L.statics == 0 && L.offset == []
    requires forall o: nat :: o <= n ==> Heap(o) in L.words && L.words[Heap(o)] > 0
    requires forall a :: a in L.words <==> L.IsArea(a)
    ensures L.WellFormed() && forall o <- L.block :: L.HasDescr(o) && !L.IsUncollectable(o)
  {
    forall o | o in L.block ensures L.blocks[L.block[o]] == Used(Kind.Normal, [o]) && o <= n && L.HasDescr(o) {
      assert o in UpTo(n) && L.block[o] == o;
    }
    forall b, j | 0 <= b < |L.blocks| && L.blocks[b].Used? && 0 <= j < |L.blocks[b].objs|
      ensures L.blocks[b].objs[j] in L.block && L.block[L.blocks[b].objs[j]] == b
    {
      assert L.blocks[b].objs == [b] && b in UpTo(n);
    }
    forall w | w in L.resolve ensures L.resolve[w] in L.block && L.leastHa <= w < L.greatestHa {
      assert L.resolve[w] in UpTo(n);
    }
  }

  lemma HubWellFormed(n: nat)
    requires n > 0
    ensures Hub(n).WellFormed() && Hub(n).block.Keys == UpTo(n)
    ensures forall o <- Hub(n).block :: Hub(n).HasDescr(o) && !Hub(n).IsUncollectable(o)
  {
    hide *;
    HubParts(n);
    OneEach(Hub(n), n);
  }

  lemma HubSized(n: nat)
    requires n > 0
    ensures HubMemory(n).Keys == Hub(n).words.Keys && forall a <- HubMemory(n) :: |HubMemory(n)[a]| == Hub(n).words[a]
  {
    forall a ensures a in HubMemory(n) <==> a in Hub(n).words {
      if a.Heap? { assert a.o in UpTo(n) <==> Heap(a.o) in HubMemory(n); }
    }
  }

  // Object 0 points to the others, and the roots to nothing.
  lemma HubPoints(n: nat)
    requires n > 0
    ensures RootTargets(Hub(n), HubMemory(n)) == {}
    ensures forall o: nat :: PointsTo(Hub(n), HubMemory(n), Heap(0), o) <==> 1 <= o <= n
  {
    var L, mem := Hub(n), HubMemory(n);
    forall o: nat ensures PointsTo(L, mem, Heap(0), o) <==> 1 <= o <= n {
      if 1 <= o <= n {
        assert mem[Heap(0)][o - 1] == o && o in L.resolve && L.resolve[o] == o;
      }
    }
  }

  lemma UpToSize(n: nat)
    ensures |UpTo(n)| == n + 1
  {
  }

  // Nothing is live.
  lemma HubDead(n: nat)
    requires n > 0
    ensures Live(Hub(n), HubMemory(n), {}) == {}
  {
    HubPoints(n);
  }

  lemma HubHeavy(n: nat)
    requires n > 0
    ensures 0 in Hub(n).block && Hub(n).HasDescr(0)
    ensures Heavy(Hub(n), Seeds(Hub(n), HubMemory(n), IgnoreSelf, 0)) == UpTo(n) - {0}
    ensures |UpTo(n) - {0}| == n
  {
    hide HubMemory, Layout.WellFormed, Layout.HasDescr, Reachable, Hub, PointsTo;
    HubWellFormed(n);
    HubPoints(n);
    UpToSize(n);
    assert 0 in UpTo(n);
  }

  // Tracing from object 0 would push n objects with pointers at once.
  lemma HubCrowded(m: Marker, n: nat)
    requires m.L == Hub(n) && m.mem == HubMemory(n) && m.marked == {} && n > m.stack.Length
    ensures Lost(m, 0, IgnoreSelf)
  {
    hide Hub, HubMemory, Layout.WellFormed, Layout.HasDescr, Reachable, UpTo, PointsTo, Heavy, Seeds;
    HubHeavy(n);
    assert Heavy(Hub(n), Seeds(Hub(n), HubMemory(n), IgnoreSelf, 0)) - {}
        == Heavy(Hub(n), Seeds(Hub(n), HubMemory(n), IgnoreSelf, 0));
  }

  // Nothing points to object 0.
  lemma HubOthers(n: nat)
    requires n > 0
    ensures PointerClosed(Hub(n), HubMemory(n), UpTo(n) - {0})
  {
  }

  // No object leads to object 0.
  lemma HubExpected(n: nat, key: map<Ptr, Obj>, info: map<Ptr, Info>, p: Ptr)
    requires n > 0 && p in key && key[p] == 0 && p in info && info[p].proc == IgnoreSelf
    ensures Expected(Hub(n), HubMemory(n), key, info, {p}, {}) == {p}
  {
    HubPoints(n);
    HubOthers(n);
    var L, mem := Hub(n), HubMemory(n);
    var seeds := Seeds(L, mem, IgnoreSelf, 0);
    hide Hub, HubMemory;
    if Reachable(L, mem, seeds, 0) {
      var c :| ReachesBy(L, mem, seeds, c, 0);
      ClosedContainsReachable(L, mem, seeds, UpTo(n) - {0}, c, 0);
    }
    hide Reachable, Seeds;
    assert 0 !in Traced(L, mem, key, info, {p});
  }

  // For every heap of this kind with more objects than the mark stack has entries: the finalizer of object 0, attached
  // with GC_register_finalizer_ignore_self, is expected to be queued, since nothing is live and nothing leads to the
  // object.  But the overflow marks the object, and the finalizer stays in the table.
  method OverflowLoses(n: nat, fn: Fn)
    returns (f: Finalizers, ghost p: Ptr, ghost es: seq<Ptr>, ghost over: set<Obj>)
    requires n > INITIAL_MARK_STACK_SIZE && fn != 0
    ensures f.Valid() && f.t.Recs() == {p} && p in f.t.key && f.t.key[p] == 0 && f.q == []
    ensures Expected(Hub(n), HubMemory(n), f.t.key, f.info, {p}, {}) == {p}
    ensures es == [] && over == {0}
  {
    hide *;
    HubWellFormed(n);
    HubSized(n);
    var m := new Marker(Hub(n), HubMemory(n), false);
    f := new Finalizers(m, false);
    p := AttachTo(f, n, fn);
    CollectHub(m, n);
    HubCrowded(m, n);
    HubExpected(n, f.t.key, f.info, p);
    HubReady(f, p);
    NoRoots(m, n);
    ghost var mA;
    var ok;
    ok, es, over, mA := f.GcFinalize(_ => false);
    HubLeft(m.L, m.mem, f.t.key, f.info, p, over, es, mA, f.t.Recs(), f.q, m.marked);
  }

  lemma NoRoots(m: Marker, n: nat)
    requires m.L == Hub(n)
    ensures m.FewRoots()
  {
  }

  // Attach a finalizer to object 0.
  method AttachTo(f: Finalizers, n: nat, fn: Fn) returns (ghost p: Ptr)
    requires f.Valid() && f.Unique() && f.m.L == Hub(n) && n > 0 && fn != 0 && f.Where() == Places({}, [], [], {})
    modifies f, f.t
    ensures f.Valid() && f.Unique() && f.t.Recs() == {p} && f.q == []
    ensures p in f.t.key && f.t.key[p] == 0 && p in f.info && f.info[p].proc == IgnoreSelf
  {
    HubWellFormed(n);
    assert 0 in f.m.L.block && f.t.Recs() == {} && f.q == [];
    hide *;
    var ok, ofn, ocd, found, enough := f.Register(0, Info(fn, 0, IgnoreSelf), true, true);
    p := f.last;
  }

  method CollectHub(m: Marker, n: nat)
    requires m.Base() && m.L == Hub(n) && m.mem == HubMemory(n) && n > 0 && m.marked == {}
    modifies m`marked, m`depth, m`state, m`tooSmall, m`objectsAreMarked, m`scan, m`stack, m.stack,
             m`dirty, m`grungy, m`rootsDirty
    ensures m.stack == old(m.stack)
    ensures m.Quiet() && m.marked == {}
  {
    hide *;
    HubDead(n);
    NoRoots(m, n);
    var c := new Collector(m, false);
    var r := c.FullCollection(Never, _ => false);
    NeverStops(0, c.polls);
  }

  lemma HubReady(f: Finalizers, p: Ptr)
    requires f.Valid() && f.q == [] && f.t.Recs() == {p} && p in f.t.key && f.t.key[p] == 0 && p in f.info
    requires Lost(f.m, 0, f.info[p].proc)
    ensures f.QueueMarked() && |f.t.Recs()| == 1 && AllLost(f.m, f.t.key, f.info, f.t.Recs())
    ensures KeysOf(f.t.key, {p}) == {0}
  {
  }

  lemma NotEmpty(es: seq<Ptr>)
    ensures es != [] ==> es[0] in Elems(es)
  {
  }

  lemma HubLeft(L: Layout, mem: map<Area, seq<Word>>, key: map<Ptr, Obj>, info: map<Ptr, Info>, p: Ptr,
                over: set<Obj>, es: seq<Ptr>, mA: set<Obj>, recs: set<Ptr>, q: seq<Ptr>, marked: set<Obj>)
    requires Finalized(L, mem, key, info, false, {p}, [], {}, over, es, mA, recs, q, marked)
    requires p in key && key[p] == 0 && KeysOf(key, {p}) == {0} && {0} <= over
    ensures es == [] && over == {0} && recs == {p} && q == []
  {
    hide Traced;
    NotEmpty(es);
  }
}
