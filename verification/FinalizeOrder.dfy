/** What GC_finalize means for its clients: which objects are finalized, in which order, what they can
 *  rely on, and where the code falls short of its documentation.
 *
 *  All statements are about a completed GC_finalize as described by Finalize.Finalized: `recs0` and `q0`
 *  are the table and the queue before, `m0` the marks the collection left, `es` the records newly queued.
 */
module FinalizeOrder {
  import opened Common
  import opened MarkDefs
  import opened Marker
  import opened HashChains
  import opened Finalize

  // Records name objects of the heap.
  ghost predicate Known(L: Layout, key: map<Ptr, Obj>, info: map<Ptr, Info>, s: set<Ptr>) {
    forall p <- s :: p in key && p in info && key[p] in L.block
  }

  // Ordinary registration, no overflow: an object becomes ready exactly if the collection left it unmarked
  // and no registered object, itself included, leads to it by one or more pointers.  If the object has several
  // records, which comes about in Java mode only, all of them are queued there, and one outside it.
  lemma FinalizationOrder(L: Layout, mem: map<Area, seq<Word>>, key: map<Ptr, Obj>, info: map<Ptr, Info>, java: bool,
                          recs0: set<Ptr>, q0: seq<Ptr>, m0: set<Obj>, es: seq<Ptr>, mA: set<Obj>,
                          recs: set<Ptr>, q: seq<Ptr>, marked: set<Obj>, p: Ptr)
    requires Finalized(L, mem, key, info, java, recs0, q0, m0, {}, es, mA, recs, q, marked)
    requires L.WellFormed() && Known(L, key, info, recs0) && p in recs0
    requires forall r <- recs0 :: info[r].proc == MarkProc.Normal
    ensures key[p] in KeysOf(key, Elems(es)) <==> key[p] !in m0 && forall r <- recs0 :: !Leads(L, mem, key[r], key[p])
    ensures java || KeysUnique(key, recs0) ==>
              (p in es <==> key[p] !in m0 && forall r <- recs0 :: !Leads(L, mem, key[r], key[p]))
  {
    var m1 := AfterFirst(L, mem, key, info, recs0, m0, {});
    assert m1 == m0 + Traced(L, mem, key, info, recs0);
    ExpectedIffNotLed(L, mem, key, info, recs0, m0, p);
    InElems(es, p);
    hide Traced, PostMarks, Leads, Back, Lonely;
    if java || KeysUnique(key, recs0) { PickedAll(key, recs0, m1, java, es); }
    assert key[p] in KeysOf(key, Unmarked(key, recs0, m1)) <==> p in Unmarked(key, recs0, m1);
  }

  // The same in general: what is ready is expected, and all that is expected is ready if and only if no
  // overflow marked an expected object.
  lemma ReadyIsExpected(L: Layout, mem: map<Area, seq<Word>>, key: map<Ptr, Obj>, info: map<Ptr, Info>, java: bool,
                        recs0: set<Ptr>, q0: seq<Ptr>, m0: set<Obj>, over: set<Obj>, es: seq<Ptr>, mA: set<Obj>,
                        recs: set<Ptr>, q: seq<Ptr>, marked: set<Obj>)
    requires Finalized(L, mem, key, info, java, recs0, q0, m0, over, es, mA, recs, q, marked)
    ensures Elems(es) <= Expected(L, mem, key, info, recs0, m0)
    ensures KeysOf(key, Elems(es)) == KeysOf(key, Expected(L, mem, key, info, recs0, m0)) <==>
            forall p <- Expected(L, mem, key, info, recs0, m0) :: key[p] !in over
    ensures java || KeysUnique(key, recs0) ==>
              (Elems(es) == Expected(L, mem, key, info, recs0, m0) <==>
               forall p <- Expected(L, mem, key, info, recs0, m0) :: key[p] !in over)
  {
    var m1 := AfterFirst(L, mem, key, info, recs0, m0, over);
    var expected := Expected(L, mem, key, info, recs0, m0);
    assert m1 == m0 + Traced(L, mem, key, info, recs0) + over;
    hide Traced, PostMarks, Back, Rest, Lonely;
    QueuedIsExpected(L, mem, key, info, recs0, m0, over);
    if java || KeysUnique(key, recs0) { PickedAll(key, recs0, m1, java, es); }
    assert KeysOf(key, Elems(es)) == KeysOf(key, Unmarked(key, recs0, m1));
    if KeysOf(key, Elems(es)) == KeysOf(key, expected) {
      forall p | p in expected ensures key[p] !in over {
        assert key[p] in KeysOf(key, expected);
        var r :| r in Unmarked(key, recs0, m1) && r in key && key[r] == key[p];
      }
    }
  }

  // The objects of unmarked records registered without order point to marked objects and objects of records only.
  ghost predicate LooseEndsHeld(L: Layout, mem: map<Area, seq<Word>>, key: map<Ptr, Obj>, info: map<Ptr, Info>,
                                recs0: set<Ptr>, marked: set<Obj>) {
    forall p, o ::
      p in Unmarked(key, recs0, marked) && p in info && info[p].proc == NoOrder
      && key[p] in L.block && L.HasDescr(key[p]) && PointsTo(L, mem, Heap(key[p]), o) ==>
        o in marked || o in KeysOf(key, recs0)
  }

  // Outside Java mode everything that queued objects lead to is marked, and so survives the collection, if and only if
  // before the call the objects expected to be queued that were registered without order pointed to nothing but
  // marked objects, objects that registered ones lead to, and registered objects.  This much suffices even if the mark
  // stack overflows; objects marked by overflows can only help.
  lemma QueuedSurvive(L: Layout, mem: map<Area, seq<Word>>, key: map<Ptr, Obj>, info: map<Ptr, Info>,
                      recs0: set<Ptr>, q0: seq<Ptr>, m0: set<Obj>, over: set<Obj>, es: seq<Ptr>, mA: set<Obj>,
                      recs: set<Ptr>, q: seq<Ptr>, marked: set<Obj>)
    requires Finalized(L, mem, key, info, false, recs0, q0, m0, over, es, mA, recs, q, marked)
    requires L.WellFormed() && Known(L, key, info, recs0)
    requires PointerClosed(L, mem, AfterFirst(L, mem, key, info, recs0, m0, over))
    ensures LooseEndsHeld(L, mem, key, info, recs0, m0 + Traced(L, mem, key, info, recs0)) ==>
              PointerClosed(L, mem, marked)
    ensures over == {} ==>
              (PointerClosed(L, mem, marked) <==>
               LooseEndsHeld(L, mem, key, info, recs0, m0 + Traced(L, mem, key, info, recs0)))
    ensures PointerClosed(L, mem, marked) <==>
            LooseEndsHeld(L, mem, key, info, recs0, m0 + Traced(L, mem, key, info, recs0) + over)
  {
    var m, m1 := m0 + Traced(L, mem, key, info, recs0), AfterFirst(L, mem, key, info, recs0, m0, over);
    assert m1 == m + over;
    if LooseEndsHeld(L, mem, key, info, recs0, m) {
      LooseEndsMore(L, mem, key, info, recs0, m, m1);
    }
    if PointerClosed(L, mem, marked) { ClosedHolds(L, mem, key, info, recs0, m1, marked); }
    if LooseEndsHeld(L, mem, key, info, recs0, m1) { HeldCloses(L, mem, key, info, recs0, m1, marked); }
  }

  lemma LooseEndsMore(L: Layout, mem: map<Area, seq<Word>>, key: map<Ptr, Obj>, info: map<Ptr, Info>,
                      recs0: set<Ptr>, marked: set<Obj>, more: set<Obj>)
    requires LooseEndsHeld(L, mem, key, info, recs0, marked) && marked <= more
    ensures LooseEndsHeld(L, mem, key, info, recs0, more)
  {
    assert forall p :: p in Unmarked(key, recs0, more) ==> p in Unmarked(key, recs0, marked);
  }

  lemma ClosedHolds(L: Layout, mem: map<Area, seq<Word>>, key: map<Ptr, Obj>, info: map<Ptr, Info>,
                    recs0: set<Ptr>, m1: set<Obj>, marked: set<Obj>)
    requires marked == m1 + KeysOf(key, Unmarked(key, recs0, m1)) && PointerClosed(L, mem, marked)
    ensures LooseEndsHeld(L, mem, key, info, recs0, m1)
  {
    hide PointsTo, Layout.HasDescr;
    forall p | p in Unmarked(key, recs0, m1) ensures key[p] in marked {
      assert key[p] in KeysOf(key, Unmarked(key, recs0, m1));
    }
  }

  lemma HeldCloses(L: Layout, mem: map<Area, seq<Word>>, key: map<Ptr, Obj>, info: map<Ptr, Info>,
                   recs0: set<Ptr>, m1: set<Obj>, marked: set<Obj>)
    requires marked == m1 + KeysOf(key, Unmarked(key, recs0, m1)) && LooseEndsHeld(L, mem, key, info, recs0, m1)
    requires L.WellFormed() && Known(L, key, info, recs0) && PointerClosed(L, mem, m1)
    requires Traced(L, mem, key, info, recs0) <= m1
    ensures PointerClosed(L, mem, marked)
  {
    hide PointsTo, Layout.HasDescr, Layout.WellFormed, Traced;
    forall x, y {:trigger PointsTo(L, mem, Heap(x), y)}
      | x in marked && x in L.block && L.HasDescr(x) && PointsTo(L, mem, Heap(x), y)
      ensures y in marked
    {
      if x !in m1 {
        var p :| p in Unmarked(key, recs0, m1) && p in key && key[p] == x;
        if info[p].proc != NoOrder {
          QueuedSafe(L, mem, key, info, recs0, marked, p, y);
        } else if y !in m1 {
          var r :| r in recs0 && r in key && key[r] == y;
          assert r in Unmarked(key, recs0, m1);
        }
      }
    }
  }

  // Without registrations of that kind all that a queued object leads to survives.
  lemma OrdinarySurvive(L: Layout, mem: map<Area, seq<Word>>, key: map<Ptr, Obj>, info: map<Ptr, Info>,
                        recs0: set<Ptr>, q0: seq<Ptr>, m0: set<Obj>, over: set<Obj>, es: seq<Ptr>, mA: set<Obj>,
                        recs: set<Ptr>, q: seq<Ptr>, marked: set<Obj>, p: Ptr, o: Obj)
    requires Finalized(L, mem, key, info, false, recs0, q0, m0, over, es, mA, recs, q, marked)
    requires L.WellFormed() && Known(L, key, info, recs0)
    requires PointerClosed(L, mem, AfterFirst(L, mem, key, info, recs0, m0, over))
    requires forall r <- recs0 :: info[r].proc != NoOrder
    ensures PointerClosed(L, mem, marked)
    ensures p in recs0 && p in es && (o == key[p] || Leads(L, mem, key[p], o)) ==> o in marked
  {
    QueuedSurvive(L, mem, key, info, recs0, q0, m0, over, es, mA, recs, q, marked);
    if p in recs0 && p in es {
      InElems(es, p);
      assert key[p] in KeysOf(key, Elems(es));
      hide Traced, AfterFirst, Leads;
      if Leads(L, mem, key[p], o) { LeadsWithin(L, mem, marked, key[p], o); }
    }
  }

  // Object 1 points to object 2 and is registered as record 7.
  function LooseHeap(): Layout {
    Layout([Used(Kind.Normal, [1, 2])], map[1 := 0, 2 := 0], map[Heap(1) := 1, Heap(2) := 1, Stacks := 0],
           map[200 := 2], 0, [], 200, 201)
  }

  function LooseMemory(): map<Area, seq<Word>> { map[Heap(1) := [200], Heap(2) := [0], Stacks := []] }

  function OneKey(): map<Ptr, Obj> { map[7 := 1] }

  function OneInfo(): map<Ptr, Info> { map[7 := Info(5, 0, NoOrder)] }

  // What queued objects lead to need not survive for an object registered without order: 1 points to 2, nothing else
  // does, and only 1 is registered.  1 is queued and marked, but 2 is not.
  lemma LooseEndLost()
    ensures LooseHeap().WellFormed() && PointsTo(LooseHeap(), LooseMemory(), Heap(1), 2)
    ensures Finalized(LooseHeap(), LooseMemory(), OneKey(), OneInfo(), false, {7}, [], {}, {}, [7], {}, {}, [7], {1})
  {
    hide *;
    LooseEnd();
    LooseQueued(LooseHeap(), LooseMemory());
  }

  lemma LooseEnd()
    ensures LooseHeap().WellFormed() && PointsTo(LooseHeap(), LooseMemory(), Heap(1), 2)
    ensures Traced(LooseHeap(), LooseMemory(), OneKey(), OneInfo(), {7}) == {}
  {
    LooseWellFormed();
    LooseTraced(LooseHeap(), LooseMemory());
    hide Layout.WellFormed, Traced;
    assert LooseMemory()[Heap(1)][0] in LooseHeap().resolve;
  }

  lemma LooseWellFormed()
    ensures LooseHeap().WellFormed()
  {
    var L := LooseHeap();
    assert L.blocks == [Used(Kind.Normal, [1, 2])] && L.block == map[1 := 0, 2 := 0] && L.resolve == map[200 := 2];
    assert L.words[Heap(1)] == 1 && L.words[Heap(2)] == 1;
    forall a ensures a in L.words <==> L.IsArea(a) {
      match a
      case Heap(o) =>
      case _ =>
    }
    hide LooseHeap;
  }

  lemma LooseTraced(L: Layout, mem: map<Area, seq<Word>>)
    ensures Traced(L, mem, OneKey(), OneInfo(), {7}) == {}
  {
    assert Seeds(L, mem, NoOrder, 1) == {};
  }

  lemma LooseQueued(L: Layout, mem: map<Area, seq<Word>>)
    requires Traced(L, mem, OneKey(), OneInfo(), {7}) == {}
    ensures Finalized(L, mem, OneKey(), OneInfo(), false, {7}, [], {}, {}, [7], {}, {}, [7], {1})
  {
    hide Traced;
    assert Elems([7]) == {7} && Unmarked(OneKey(), {7}, {}) == {7} && KeysOf(OneKey(), {7}) == {1};
    assert [7] + [] == [7];
  }

  // If no object has two records in the table, a record goes back from the queue exactly if its object is marked
  // between the Java passes.
  lemma GoesBack(L: Layout, mem: map<Area, seq<Word>>, key: map<Ptr, Obj>, info: map<Ptr, Info>,
                 recs0: set<Ptr>, q0: seq<Ptr>, m0: set<Obj>, over: set<Obj>, es: seq<Ptr>, mA: set<Obj>,
                 recs: set<Ptr>, q: seq<Ptr>, marked: set<Obj>, p: Ptr)
    requires Finalized(L, mem, key, info, true, recs0, q0, m0, over, es, mA, recs, q, marked) && KeysUnique(key, recs0)
    requires forall r <- q0 :: r in key ==> key[r] in m0
    ensures p in Back(key, info, es + q0, mA) <==> p in es + q0 && Yields(key, info, p) && key[p] in mA
  {
    hide Traced, Back, Lonely, Rest;
    var s := es + q0;
    forall r, x | r in s && x in s && r in key && x in key && key[r] !in mA && key[r] == key[x] ensures r == x {
      InElems(es, r);
      InElems(es, x);
    }
    BackApart(key, info, s, mA, p);
  }

  // What finalization in Java mode leaves.
  lemma JavaFacts(L: Layout, mem: map<Area, seq<Word>>, key: map<Ptr, Obj>, info: map<Ptr, Info>,
                  recs0: set<Ptr>, q0: seq<Ptr>, m0: set<Obj>, over: set<Obj>, es: seq<Ptr>, mA: set<Obj>,
                  recs: set<Ptr>, q: seq<Ptr>, marked: set<Obj>)
    requires Finalized(L, mem, key, info, true, recs0, q0, m0, over, es, mA, recs, q, marked)
    ensures var m1 := AfterFirst(L, mem, key, info, recs0, m0, over);
            && m0 <= m1 && Elems(es) == Unmarked(key, recs0, m1)
            && PostMarks(L, mem, key, info, m1, Elems(es + q0), mA)
            && recs == recs0 - Elems(es) + Back(key, info, es + q0, mA)
            && q == Rest(es + q0, Back(key, info, es + q0, mA))
  {
    hide Traced, Back, Lonely, Rest, KeysOf, PostMarks;
  }

  // The object of a record that may have to give way is marked after the second pass exactly if a queued object
  // registered without order leads to it.
  lemma InPost(L: Layout, mem: map<Area, seq<Word>>, key: map<Ptr, Obj>, info: map<Ptr, Info>, m1: set<Obj>,
               s: set<Ptr>, mA: set<Obj>, p: Ptr)
    requires PostMarks(L, mem, key, info, m1, s, mA) && L.WellFormed() && Known(L, key, info, s)
    requires p in s && info[p].proc == Unreachable && key[p] !in m1
    requires forall r :: r in s && key[r] == key[p] ==> r == p
    ensures key[p] in mA <==> exists r :: r in s && info[r].proc == NoOrder && Leads(L, mem, key[r], key[p])
  {
    hide Traced, Leads, Layout.WellFormed;
    TracedUnordered(L, mem, key, info, s, key[p]);
    assert key[p] !in KeysOf(key, Ordinary(info, s));
  }

  // A finalizer of GC_register_finalizer_unreachable stays queued exactly if no queued object registered
  // without order leads to its object.
  lemma UnreachableYields(L: Layout, mem: map<Area, seq<Word>>, key: map<Ptr, Obj>, info: map<Ptr, Info>,
                          recs0: set<Ptr>, q0: seq<Ptr>, m0: set<Obj>, over: set<Obj>, es: seq<Ptr>, mA: set<Obj>,
                          recs: set<Ptr>, q: seq<Ptr>, marked: set<Obj>, p: Ptr)
    requires Finalized(L, mem, key, info, true, recs0, q0, m0, over, es, mA, recs, q, marked)
    requires L.WellFormed() && Known(L, key, info, recs0) && Known(L, key, info, Elems(q0)) && KeysUnique(key, recs0)
    requires forall r <- q0 :: key[r] in m0
    requires PointerClosed(L, mem, AfterFirst(L, mem, key, info, recs0, m0, over))
    requires p in recs0 && p in es && info[p].proc == Unreachable
    ensures p in q <==> forall r <- recs0 :: r in es && info[r].proc == NoOrder ==> !Leads(L, mem, key[r], key[p])
    ensures p in recs <==> p !in q
  {
    hide Finalized, Traced, Leads, Seeds, Back, Lonely, Rest, AfterFirst, PointerClosed, KeysOf, Layout.WellFormed;
    var m1, s := AfterFirst(L, mem, key, info, recs0, m0, over), es + q0;
    JavaFacts(L, mem, key, info, recs0, q0, m0, over, es, mA, recs, q, marked);
    GoesBack(L, mem, key, info, recs0, q0, m0, over, es, mA, recs, q, marked, p);
    RestIn(s, Back(key, info, s, mA), p);
    forall r ensures (r in Elems(s) <==> r in es || r in q0) && (r in es <==> r in Elems(es)) {
      InElems(s, r);
      InElems(es, r);
      InElems(q0, r);
    }
    InPost(L, mem, key, info, m1, Elems(s), mA, p);
    forall r | r in q0 && info[r].proc == NoOrder ensures !Leads(L, mem, key[r], key[p]) {
      if Leads(L, mem, key[r], key[p]) { LeadsWithin(L, mem, m1, key[r], key[p]); }
    }
  }

  lemma TracedUnordered(L: Layout, mem: map<Area, seq<Word>>, key: map<Ptr, Obj>, info: map<Ptr, Info>, s: set<Ptr>,
                        o: Obj)
    requires L.WellFormed() && Known(L, key, info, s) && o in L.block
    ensures o in Traced(L, mem, key, AsNormal(info), Unordered(info, s)) <==>
            exists r :: r in s && info[r].proc == NoOrder && Leads(L, mem, key[r], o)
  {
    hide Leads, Seeds, ReachSet;
    forall r | r in s ensures TracedFrom(L, mem, key, AsNormal(info), r, o) <==> Leads(L, mem, key[r], o) {
      NormalTraceLeads(L, mem, key[r], o);
    }
  }

  // A set closed under pointers holds all that its members lead to.
  lemma LeadsWithin(L: Layout, mem: map<Area, seq<Word>>, s: set<Obj>, x: Obj, o: Obj)
    requires PointerClosed(L, mem, s) && x in s && Leads(L, mem, x, o)
    ensures o in s
  {
    var p :| |p| >= 2 && ReachesBy(L, mem, {x}, p, o);
    ClosedContainsReachable(L, mem, {x}, s, p, o);
  }

  // The records still waiting for a finalizer of GC_register_finalizer_unreachable.
  function Waiting(info: map<Ptr, Info>, q0: seq<Ptr>): set<Ptr> {
    set p | p in q0 && p in info && info[p].proc == Unreachable
  }

  // Outside Java mode keys stay unique.  In Java mode waiting records go back into the table even if their
  // object has been registered again meanwhile: keys stay unique if and only if there are no such records.
  lemma KeysStayUnique(L: Layout, mem: map<Area, seq<Word>>, key: map<Ptr, Obj>, info: map<Ptr, Info>, java: bool,
                       recs0: set<Ptr>, q0: seq<Ptr>, m0: set<Obj>, over: set<Obj>, es: seq<Ptr>, mA: set<Obj>,
                       recs: set<Ptr>, q: seq<Ptr>, marked: set<Obj>)
    requires Finalized(L, mem, key, info, java, recs0, q0, m0, over, es, mA, recs, q, marked)
    requires Known(L, key, info, recs0) && Known(L, key, info, Elems(q0)) && KeysUnique(key, recs0)
    requires forall r <- q0 :: key[r] in m0
    ensures !java ==> KeysUnique(key, recs)
    ensures java ==> (KeysUnique(key, recs) <==> KeysUnique(key, recs0 + Waiting(info, q0)))
  {
    hide Traced;
    forall r ensures r in Elems(es) <==> r in es { InElems(es, r); }
    forall r ensures r in Elems(q0) <==> r in q0 { InElems(q0, r); }
    if java {
      forall r ensures r in Back(key, info, es + q0, mA) <==> r in es + q0 && Yields(key, info, r) && key[r] in mA {
        GoesBack(L, mem, key, info, recs0, q0, m0, over, es, mA, recs, q, marked, r);
      }
      hide Back, Lonely, Rest;
      var all := recs0 + Waiting(info, q0);
      assert forall r :: r in Waiting(info, q0) ==> r in recs;
      assert recs <= all;
      if KeysUnique(key, recs) {
        forall p, r | p in all && r in all && p in key && r in key && key[p] == key[r] ensures p == r {
          if p !in recs0 && r in recs0 { assert r in recs && p in recs; }
        }
      }
    }
  }

  // A heap of one object without pointers.
  function OneObject(): Layout {
    Layout([Used(PtrFree, [1])], map[1 := 0], map[Heap(1) := 1, Stacks := 0], map[], 0, [], 0, 0)
  }

  lemma NothingTraced(mem: map<Area, seq<Word>>, key: map<Ptr, Obj>, info: map<Ptr, Info>, s: set<Ptr>)
    ensures OneObject().WellFormed() && Traced(OneObject(), mem, key, info, s) == {}
  {
    var L := OneObject();
    assert L.WellFormed();
    hide Layout.WellFormed;
    forall p, proc ensures Seeds(L, mem, proc, p) == {} {}
    hide Seeds;
    forall o ensures !Reachable(L, mem, {}, o) {}
    hide Reachable;
    assert ReachSet(L, mem, {}) == {};
  }

  // Records 1 and 2 for that object, both of the same kind.
  function TwoKeys(): map<Ptr, Obj> { map[1 := 1, 2 := 1] }

  function TwoInfos(): map<Ptr, Info> { map[1 := Info(5, 0, Unreachable), 2 := Info(5, 0, Unreachable)] }

  // A waiting record 1 whose object was registered again as record 2: afterwards the table has both.
  lemma DoubleKey(mem: map<Area, seq<Word>>)
    ensures OneObject().WellFormed()
    ensures Finalized(OneObject(), mem, TwoKeys(), TwoInfos(), true, {2}, [1], {1}, {}, [], {1}, {1, 2}, [], {1})
    ensures KeysUnique(TwoKeys(), {2}) && !KeysUnique(TwoKeys(), {1, 2})
  {
    hide *;
    NothingTraced(mem, TwoKeys(), TwoInfos(), {2});
    WaitingGoesBack(OneObject(), mem);
    SameKeyTwice();
  }

  lemma SameKeyTwice()
    ensures KeysUnique(TwoKeys(), {2}) && !KeysUnique(TwoKeys(), {1, 2})
  {
    assert 1 in {1, 2} && 2 in {1, 2} && TwoKeys()[1] == TwoKeys()[2];
  }

  lemma WaitingGoesBack(L: Layout, mem: map<Area, seq<Word>>)
    requires Traced(L, mem, TwoKeys(), TwoInfos(), {2}) == {}
    ensures Finalized(L, mem, TwoKeys(), TwoInfos(), true, {2}, [1], {1}, {}, [], {1}, {1, 2}, [], {1})
  {
    var key, info := TwoKeys(), TwoInfos();
    assert Traced(L, mem, key, AsNormal(info), {}) == {};
    hide Traced;
    assert AfterFirst(L, mem, key, info, {2}, {1}, {}) == {1};
    assert Unmarked(key, {2}, {1}) == {} && Elems([]) == {};
    assert [] + [1] == [1] && Elems([1]) == {1};
    assert Ordinary(info, {1}) == {} && Unordered(info, {1}) == {} && KeysOf(key, {}) == {};
    assert PostMarks(L, mem, key, info, {1}, {1}, {1});
    assert Back(key, info, [1], {1}) == {1} && Lonely(key, info, [1], {1}) == {};
    assert Rest([1][..0], {1}) == [] && Rest([1], {1}) == [];
  }
}
