/** Finalization (finalize.c): which registered objects GC_finalize queues and which it keeps, and
 *  where every registration is at any time.
 */
module Finalize {
  import opened Common
  import opened MarkDefs
  import opened Marker
  import opened HashChains

  type Fn = nat                    // 0 is the null function
  type Data = int

  // What a record holds besides its object: finalizer, client data, way of tracing.
  datatype Info = Info(fn: Fn, data: Data, proc: MarkProc)

  /****** what a collection decides ******/

  // A chain of one or more pointers leads from x to o.
  ghost predicate Leads(L: Layout, mem: map<Area, seq<Word>>, x: Obj, o: Obj) {
    exists p :: |p| >= 2 && ReachesBy(L, mem, {x}, p, o)
  }

  lemma TraceLeads(L: Layout, mem: map<Area, seq<Word>>, x: Obj, o: Obj)
    requires L.WellFormed() && x in L.block && Reachable(L, mem, Seeds(L, mem, MarkProc.Normal, x), o)
    ensures Leads(L, mem, x, o)
  {
    var q :| ReachesBy(L, mem, Seeds(L, mem, MarkProc.Normal, x), q, o);
    var p := [x] + q;
    forall i | 0 <= i < |p| - 1 ensures p[i] in L.block && L.HasDescr(p[i]) && PointsTo(L, mem, Heap(p[i]), p[i + 1]) {
      if i > 0 { assert p[i] == q[i - 1] && p[i + 1] == q[i]; }
    }
    assert Chain(L, mem, p);
    assert |p| >= 2 && ReachesBy(L, mem, {x}, p, o);
  }

  lemma LeadsTraced(L: Layout, mem: map<Area, seq<Word>>, x: Obj, o: Obj)
    requires L.WellFormed() && x in L.block && Leads(L, mem, x, o)
    ensures Reachable(L, mem, Seeds(L, mem, MarkProc.Normal, x), o)
  {
    hide PointsTo, Layout.HasDescr, Layout.WellFormed, Chain;
    var p :| |p| >= 2 && ReachesBy(L, mem, {x}, p, o);
    ChainTail(L, mem, p);
    PointedIn(L, mem, Heap(p[0]), p[1]);
    assert ReachesBy(L, mem, Seeds(L, mem, MarkProc.Normal, x), p[1..], o);
  }

  lemma ChainTail(L: Layout, mem: map<Area, seq<Word>>, p: seq<Obj>)
    requires Chain(L, mem, p) && |p| >= 2
    ensures p[0] in L.block && L.HasDescr(p[0]) && PointsTo(L, mem, Heap(p[0]), p[1])
    ensures Chain(L, mem, p[1..])
  {
    hide PointsTo, Layout.HasDescr;
    var q := p[1..];
    assert PointsTo(L, mem, Heap(p[0]), p[0 + 1]);
    forall i | 0 <= i < |q| - 1 ensures q[i] in L.block && L.HasDescr(q[i]) && PointsTo(L, mem, Heap(q[i]), q[i + 1]) {
      assert p[i + 1] in L.block && q[i + 1] == p[i + 2];
    }
  }

  // Tracing from x without marking it (GC_normal_finalize_mark_proc) marks what such chains lead to.
  lemma NormalTraceLeads(L: Layout, mem: map<Area, seq<Word>>, x: Obj, o: Obj)
    requires L.WellFormed() && x in L.block
    ensures o in ReachSet(L, mem, Seeds(L, mem, MarkProc.Normal, x)) <==> o in L.block && Leads(L, mem, x, o)
  {
    hide Leads, Reachable, Seeds;
    if Reachable(L, mem, Seeds(L, mem, MarkProc.Normal, x), o) { TraceLeads(L, mem, x, o); }
    if Leads(L, mem, x, o) { LeadsTraced(L, mem, x, o); }
  }

  // Everything that the traces from a set of records can mark.
  ghost function Traced(L: Layout, mem: map<Area, seq<Word>>, key: map<Ptr, Obj>, info: map<Ptr, Info>,
                        s: set<Ptr>): set<Obj> {
    set o | o in L.block && exists p :: p in s && TracedFrom(L, mem, key, info, p, o)
  }

  ghost predicate TracedFrom(L: Layout, mem: map<Area, seq<Word>>, key: map<Ptr, Obj>, info: map<Ptr, Info>, p: Ptr,
                             o: Obj) {
    p in key && p in info && o in ReachSet(L, mem, Seeds(L, mem, info[p].proc, key[p]))
  }

  lemma TracedAdd(L: Layout, mem: map<Area, seq<Word>>, key: map<Ptr, Obj>, info: map<Ptr, Info>, s: set<Ptr>, p: Ptr)
    requires p in key && p in info
    ensures Traced(L, mem, key, info, s + {p}) ==
            Traced(L, mem, key, info, s) + ReachSet(L, mem, Seeds(L, mem, info[p].proc, key[p]))
  {
    hide Seeds;
    forall o ensures o in Traced(L, mem, key, info, s + {p}) <==>
                     o in Traced(L, mem, key, info, s) + ReachSet(L, mem, Seeds(L, mem, info[p].proc, key[p])) {
      if o in L.block && TracedFrom(L, mem, key, info, p, o) {
        assert p in s + {p};
      }
    }
  }

  // The records whose objects are not marked in the end.
  ghost function Unmarked(key: map<Ptr, Obj>, s: set<Ptr>, marked: set<Obj>): set<Ptr> {
    set p | p in s && p in key && key[p] !in marked
  }

  function KeysOf(key: map<Ptr, Obj>, s: set<Ptr>): set<Obj> {
    set p | p in s && p in key :: key[p]
  }

  // The objects meant to be queued: not marked yet, and no other registered object's trace gets there.
  ghost function Expected(L: Layout, mem: map<Area, seq<Word>>, key: map<Ptr, Obj>, info: map<Ptr, Info>, s: set<Ptr>,
                          m0: set<Obj>): set<Ptr> {
    Unmarked(key, s, m0 + Traced(L, mem, key, info, s))
  }

  // With the ordinary registration an object is expected on the queue exactly if it is unmarked and
  // no registered object, itself included, leads to it.
  lemma ExpectedIffNotLed(L: Layout, mem: map<Area, seq<Word>>, key: map<Ptr, Obj>, info: map<Ptr, Info>,
                          s: set<Ptr>, m0: set<Obj>, p: Ptr)
    requires L.WellFormed() && p in s && s <= key.Keys && s <= info.Keys
    requires forall q <- s :: key[q] in L.block && info[q].proc == MarkProc.Normal
    ensures p in Expected(L, mem, key, info, s, m0) <==>
            key[p] !in m0 && forall q <- s :: !Leads(L, mem, key[q], key[p])
  {
    hide Seeds;
    forall q | q in s ensures TracedFrom(L, mem, key, info, q, key[p]) <==> Leads(L, mem, key[q], key[p]) {
      NormalTraceLeads(L, mem, key[q], key[p]);
    }
    if key[p] in Traced(L, mem, key, info, s) {
      var q :| q in s && TracedFrom(L, mem, key, info, q, key[p]);
      assert Leads(L, mem, key[q], key[p]);
    }
    if exists q :: q in s && Leads(L, mem, key[q], key[p]) {
      var q :| q in s && Leads(L, mem, key[q], key[p]);
      assert TracedFrom(L, mem, key, info, q, key[p]);
    }
  }

  // Objects on a cycle are never expected.
  lemma CycleNotExpected(L: Layout, mem: map<Area, seq<Word>>, key: map<Ptr, Obj>, info: map<Ptr, Info>,
                         s: set<Ptr>, m0: set<Obj>, p: Ptr)
    requires L.WellFormed() && p in s && s <= key.Keys && s <= info.Keys
    requires forall q <- s :: key[q] in L.block && info[q].proc == MarkProc.Normal
    requires Leads(L, mem, key[p], key[p])
    ensures p !in Expected(L, mem, key, info, s, m0)
  {
    ExpectedIffNotLed(L, mem, key, info, s, m0, p);
  }

  // What is queued differs from what is expected only by objects that a mark stack overflow marked;
  // none of those was expected if and only if the two agree.
  lemma QueuedIsExpected(L: Layout, mem: map<Area, seq<Word>>, key: map<Ptr, Obj>, info: map<Ptr, Info>,
                         s: set<Ptr>, m0: set<Obj>, over: set<Obj>)
    ensures Unmarked(key, s, m0 + Traced(L, mem, key, info, s) + over) <= Expected(L, mem, key, info, s, m0)
    ensures Unmarked(key, s, m0 + Traced(L, mem, key, info, s) + over) == Expected(L, mem, key, info, s, m0) <==>
            forall p <- Expected(L, mem, key, info, s, m0) :: key[p] !in over
  {
    var marks := m0 + Traced(L, mem, key, info, s);
    if Unmarked(key, s, marks + over) == Unmarked(key, s, marks) {
      forall p | p in Unmarked(key, s, marks) ensures key[p] !in over {
        assert p in Unmarked(key, s, marks + over);
      }
    }
  }

  // A queued object that was traced with pointers of its own leads to marked objects only.
  lemma QueuedSafe(L: Layout, mem: map<Area, seq<Word>>, key: map<Ptr, Obj>, info: map<Ptr, Info>,
                   s: set<Ptr>, marked: set<Obj>, p: Ptr, o: Obj)
    requires L.WellFormed() && p in s && s <= key.Keys && s <= info.Keys && key[p] in L.block
    requires Traced(L, mem, key, info, s) <= marked && key[p] in marked
    requires info[p].proc != MarkProc.NoOrder && L.HasDescr(key[p]) && PointsTo(L, mem, Heap(key[p]), o)
    ensures o in marked
  {
    if o != key[p] || info[p].proc != MarkProc.IgnoreSelf {
      PointedIn(L, mem, Heap(key[p]), o);
      var seeds := Seeds(L, mem, info[p].proc, key[p]);
      assert o in seeds;
      SeedReachable(L, mem, seeds, o);
      assert TracedFrom(L, mem, key, info, p, o);
    }
  }

  /****** where registrations are ******/

  // Records in the table, on the GC_finalize_now queue, handed to a finalizer already (in that order),
  // and unregistered.
  datatype Places = Places(table: set<Ptr>, q: seq<Ptr>, ran: seq<Ptr>, gone: set<Ptr>)

  // Every record is in exactly one place, and nowhere twice.
  ghost predicate Placed(w: Places, all: set<Ptr>) {
    && Distinct(w.q) && Distinct(w.ran)
    && all == w.table + Elems(w.q) + Elems(w.ran) + w.gone
    && w.table !! Elems(w.q) !! Elems(w.ran) !! w.gone
  }

  // How an operation may move records: the table feeds the queue, the queue feeds the finalizers,
  // and only the table loses records to unregistering.  The queue may give records back to the table.
  ghost predicate Moved(a: Places, b: Places) {
    && a.ran <= b.ran && a.gone <= b.gone
    && a.table <= b.table + Elems(b.q) + b.gone
    && Elems(a.q) <= Elems(b.q) + Elems(b.ran) + b.table
    && Elems(b.q) <= Elems(a.q) + a.table
    && Elems(b.ran) <= Elems(a.ran) + Elems(a.q)
    && b.gone <= a.gone + a.table
  }

  lemma UniqueSub(key: map<Ptr, Key>, s: set<Ptr>, s2: set<Ptr>)
    requires KeysUnique(key, s) && s2 <= s
    ensures KeysUnique(key, s2)
  {
  }

  lemma UniqueAdd(key: map<Ptr, Key>, s: set<Ptr>, p: Ptr, k: Key)
    requires KeysUnique(key, s) && forall r <- s :: r in key && key[r] != k
    ensures KeysUnique(key[p := k], s + {p})
  {
  }

  // Registering and unregistering.
  lemma TableMoved(a: Places, b: Places)
    requires b.q == a.q && b.ran == a.ran && a.gone <= b.gone
    requires a.table <= b.table + b.gone && b.gone <= a.gone + a.table
    ensures Moved(a, b)
  {
  }

  // Over any run: a record that a finalizer got is handed out once and for all, and no record is lost.
  lemma {:induction false} RunOnce(run: seq<Places>, all: seq<set<Ptr>>, i: nat, j: nat, p: Ptr)
    requires |run| == |all| && i <= j < |run|
    requires forall n :: 0 <= n < |run| ==> Placed(run[n], all[n])
    requires forall n :: 0 <= n < |run| - 1 ==> Moved(run[n], run[n + 1])
    ensures p in all[i] ==> p in all[j]
    ensures run[i].ran <= run[j].ran
    ensures p in run[i].ran ==> p in run[j].ran && p !in run[j].table && p !in run[j].q
    ensures p in run[i].gone ==> p in run[j].gone && p !in run[j].table && p !in run[j].q && p !in run[j].ran
    decreases j - i
  {
    assert Placed(run[i], all[i]) && Placed(run[j], all[j]);
    if i < j {
      RunOnce(run, all, i, j - 1, p);
      assert Placed(run[j - 1], all[j - 1]) && Moved(run[j - 1], run[j]);
      assert run[j - 1].ran <= run[j].ran;
      assert forall x :: x in run[j - 1].ran ==> x in run[j].ran;
      InElems(run[j - 1].q, p);
      InElems(run[j].q, p);
      InElems(run[j - 1].ran, p);
      InElems(run[j].ran, p);
    } else {
      InElems(run[i].q, p);
      InElems(run[i].ran, p);
    }
  }

  lemma InElems(s: seq<Ptr>, p: Ptr)
    ensures p in s <==> p in Elems(s)
  {
  }

  // The records belong to objects of the heap, and the flag is up if some want GC_unreachable_ tracing.
  ghost predicate Recorded(L: Layout, key: map<Ptr, Obj>, info: map<Ptr, Info>, last: Ptr, unreachable: bool) {
    && info.Keys == key.Keys
    && (forall p <- key :: 0 < p <= last && key[p] in L.block)
    && (forall p <- info :: info[p].proc == Unreachable ==> unreachable)
  }

  class Finalizers {
    const m: Marker
    const t: Table
    const java: bool                 // GC_java_finalization
    var info: map<Ptr, Info>
    var queue: Ptr                   // GC_finalize_now
    var needUnreachable: bool
    var last: Ptr                    // the newest record
    ghost var q: seq<Ptr>
    ghost var ran: seq<Ptr>
    ghost var gone: set<Ptr>

    ghost function Where(): Places
      reads `q, `ran, `gone, t
    {
      Places(t.Recs(), q, ran, gone)
    }

    // The table and the queue are well linked, and every record is in one place.
    ghost predicate Listed()
      reads `queue, `q, `ran, `gone, t
    {
      && t.Valid() && Linked(t.next, queue, q)
      && Placed(Where(), t.key.Keys) && t.next.Keys == t.key.Keys
    }

    ghost predicate Valid()
      reads this, t
    {
      Listed() && Recorded(m.L, t.key, info, last, needUnreachable) && (t.log < 0 ==> last == 0)
    }

    ghost predicate Unique()
      reads this, t
    {
      KeysUnique(t.key, t.Recs())
    }

    constructor (marker: Marker, javaMode: bool)
      ensures Valid() && Unique() && m == marker && java == javaMode && fresh(t)
      ensures Where() == Places({}, [], [], {}) && info == map[] && last == 0 && !needUnreachable
    {
      m, java := marker, javaMode;
      t := new Table();
      info, queue, needUnreachable, last := map[], 0, false, 0;
      q, ran, gone := [], [], {};
    }

    // GC_register_finalizer_inner: attach a finalizer to obj, replace the one it has, or, if its function
    // is null, take it away.  `found` is the first record obj had in
    // its chain before, or 0; there is at most one, unless Java mode has put another one back.  If there is no
    // memory for the record needed, the lock is given up and GC_oom_fn asked; if it finds some, the call goes on
    // with Change, whatever others have done to the table meanwhile.
    method Register(obj: Obj, x: Info, alloc: bool, record: bool)
      returns (ok: bool, ofn: Fn, ocd: Data, ghost found: Ptr, enough: bool)
      requires Valid()
      modifies this, t
      ensures ok <==> alloc || old(t.log) >= 0
      ensures needUnreachable <==> old(needUnreachable) || x.proc == Unreachable
      ensures ok && old(Unique()) ==> Unique()
      ensures ok ==> Valid() && Moved(old(Where()), Where()) && q == old(q) && ran == old(ran)
      ensures ok ==> if found == 0 then (forall p <- old(t.Recs()) :: old(t.key)[p] != obj) && ofn == 0 && ocd == 0
                     else found in old(t.Recs()) && old(t.key)[found] == obj
                          && ofn == old(info)[found].fn && ocd == old(info)[found].data
      ensures ok && found != 0 && x.fn == 0 ==>
                t.Recs() == old(t.Recs()) - {found} && gone == old(gone) + {found} && info == old(info)
      ensures ok && found != 0 && x.fn != 0 ==>
                t.Recs() == old(t.Recs()) && gone == old(gone) && info == old(info)[found := x]
      ensures ok ==> (enough <==> record || found != 0 || x.fn == 0 || obj !in m.L.block)
      ensures ok && found == 0 && (x.fn == 0 || obj !in m.L.block || !enough) ==>
                t.Recs() == old(t.Recs()) && gone == old(gone) && info == old(info)
      ensures ok && found == 0 && x.fn != 0 && obj in m.L.block && enough ==>
                && last !in old(t.key) && t.Recs() == old(t.Recs()) + {last} && gone == old(gone)
                && t.key[last] == obj && info == old(info)[last := x]
      ensures forall p <- old(t.key) :: p in t.key && t.key[p] == old(t.key)[p]
    {
      found, ofn, ocd, enough := 0, 0, 0, true;
      if x.proc == Unreachable {
        needUnreachable := true;
      }
      ok := MakeRoom(alloc);
      hide *;
      if ok {
        ofn, ocd, found, enough := Change(obj, x, record);
      }
    }

    // The search of the table and what follows from it.
    method Change(obj: Obj, x: Info, record: bool) returns (ofn: Fn, ocd: Data, ghost found: Ptr, enough: bool)
      requires Valid() && t.log >= 0 && (x.proc == Unreachable ==> needUnreachable)
      modifies t, `info, `gone, `last
      ensures old(Unique()) ==> Unique()
      ensures Valid() && Moved(old(Where()), Where()) && q == old(q) && ran == old(ran)
      ensures if found == 0 then (forall p <- old(t.Recs()) :: old(t.key)[p] != obj) && ofn == 0 && ocd == 0
              else found in old(t.Recs()) && old(t.key)[found] == obj
                   && ofn == old(info)[found].fn && ocd == old(info)[found].data
      ensures found != 0 && x.fn == 0 ==>
                t.Recs() == old(t.Recs()) - {found} && gone == old(gone) + {found} && info == old(info)
      ensures found != 0 && x.fn != 0 ==>
                t.Recs() == old(t.Recs()) && gone == old(gone) && info == old(info)[found := x]
      ensures enough <==> record || found != 0 || x.fn == 0 || obj !in m.L.block
      ensures found == 0 && (x.fn == 0 || obj !in m.L.block || !enough) ==>
                t.Recs() == old(t.Recs()) && gone == old(gone) && info == old(info)
      ensures found == 0 && x.fn != 0 && obj in m.L.block && enough ==>
                && last !in old(t.key) && t.Recs() == old(t.Recs()) + {last} && gone == old(gone)
                && t.key[last] == obj && info == old(info)[last := x]
      ensures forall p <- old(t.key) :: p in t.key && t.key[p] == old(t.key)[p]
    {
      hide *;
      FindReady();
      var i, prev, curr;
      ghost var j;
      i, prev, curr, j := t.Find(obj);
      found, ofn, ocd := curr, 0, 0;
      RecsIn(curr);
      if curr != 0 {
        ofn, ocd := info[curr].fn, info[curr].data;
      }
      enough := record || curr != 0 || x.fn == 0 || obj !in m.L.block;
      if enough {
        Apply(i, prev, curr, j, obj, x);
      } else {
        KeepsWhere();
      }
    }

    lemma KeepsWhere()
      requires Valid()
      ensures Moved(Where(), Where())
    {
      TableMoved(Where(), Where());
    }

    method Apply(i: nat, prev: Ptr, curr: Ptr, ghost j: nat, obj: Obj, x: Info)
      requires Valid() && t.log >= 0 && (x.proc == Unreachable ==> needUnreachable)
      requires i < |t.chains| && j <= |t.chains[i]| && curr == At(t.chains[i], j) && (curr != 0 ==> curr in info)
      requires prev == if j == 0 then 0 else t.chains[i][j - 1]
      requires curr == 0 ==> forall p <- t.Recs() :: p in t.key && t.key[p] != obj
      modifies t, `info, `gone, `last
      ensures old(Unique()) ==> Unique()
      ensures Valid() && Moved(old(Where()), Where())
      ensures curr != 0 && x.fn == 0 ==>
                t.Recs() == old(t.Recs()) - {curr} && gone == old(gone) + {curr} && info == old(info) &&
                    t.key == old(t.key)
      ensures curr != 0 && x.fn != 0 ==>
                t.Recs() == old(t.Recs()) && gone == old(gone) && info == old(info)[curr := x] && t.key == old(t.key)
      ensures curr == 0 && (x.fn == 0 || obj !in m.L.block) ==>
                t.Recs() == old(t.Recs()) && gone == old(gone) && info == old(info) && t.key == old(t.key)
      ensures curr == 0 && x.fn != 0 && obj in m.L.block ==>
                && last !in old(t.key) && t.Recs() == old(t.Recs()) + {last} && gone == old(gone)
                && t.key == old(t.key)[last := obj] && info == old(info)[last := x]
    {
      TableMoved(Where(), Where());
      assert curr != 0 ==> curr == t.chains[i][j];
      hide *;
      if curr != 0 {
        if x.fn == 0 {
          Remove(i, prev, curr, j);
        } else {
          Replace(curr, x);
        }
      } else if x.fn != 0 && obj in m.L.block {
        Add(obj, x);
      }
    }

    method Replace(p: Ptr, x: Info)
      requires Valid() && p in info && (x.proc == Unreachable ==> needUnreachable)
      modifies `info
      ensures Valid() && Moved(old(Where()), Where()) && Where() == old(Where()) && t.Recs() == old(t.Recs())
      ensures info == old(info)[p := x]
      ensures Unique() == old(Unique())
    {
      info := info[p := x];
    }

    lemma RecsIn(p: Ptr)
      requires Valid()
      ensures p in t.Recs() ==> p in t.key && p in info
    {
    }

    // Grow the table if there is none or it has more entries than headers.
    method MakeRoom(alloc: bool) returns (ok: bool)
      requires Listed()
      modifies t
      ensures ok <==> alloc || old(t.log) >= 0
      ensures ok ==> Listed() && t.log >= 0
      ensures t.Recs() == old(t.Recs()) && t.key == old(t.key) && t.entries == old(t.entries)
      ensures t.log == old(t.log) + if alloc && old(t.log == -1 || t.entries > Pow2(t.log)) then 1 else 0
    {
      assert t.log == -1 <==> t.heads == [];
      LinkedIn(t.next, queue, q);
      ghost var next0 := t.next;
      ok := true;
      if t.log == -1 || t.entries > Pow2(t.log) {
        hide Linked, Chained, Total, Members;
        ok := t.Grow(alloc);
        assert forall p <- q :: p !in t.Recs() by { QueueApart(Where(), t.key.Keys); }
        LinkedFrame(next0, t.next, queue, q);
      }
    }

    method Remove(i: nat, prev: Ptr, curr: Ptr, ghost j: nat)
      requires Valid() && i < |t.chains| && j < |t.chains[i]| && curr == t.chains[i][j]
      requires prev == if j == 0 then 0 else t.chains[i][j - 1]
      modifies t, `gone
      ensures old(Unique()) ==> Unique()
      ensures Valid() && Moved(old(Where()), Where())
      ensures t.Recs() == old(t.Recs()) - {curr} && gone == old(gone) + {curr} && t.key == old(t.key)
    {
      if Unique() { UniqueSub(t.key, t.Recs(), t.Recs() - {curr}); }
      hide Finalizers.Listed, KeysUnique, Recorded, Moved, Table.Recs;
      Drop(i, prev, curr, j);
      TableMoved(old(Where()), Where());
    }

    method Drop(i: nat, prev: Ptr, curr: Ptr, ghost j: nat)
      requires Listed() && i < |t.chains| && j < |t.chains[i]| && curr == t.chains[i][j]
      requires prev == if j == 0 then 0 else t.chains[i][j - 1]
      modifies t, `gone
      ensures Listed() && curr in old(t.Recs()) && t.Recs() == old(t.Recs()) - {curr} && gone == old(gone) + {curr}
      ensures t.key == old(t.key) && t.log == old(t.log)
    {
      hide Linked, Chained, Total, Members;
      LinkedIn(t.next, queue, q);
      QueueApart(Where(), t.key.Keys);
      ghost var next0 := t.next;
      t.Unlink(i, prev, curr, j);
      LinkedFrame(next0, t.next, queue, q);
      gone := gone + {curr};
    }

    method Add(obj: Obj, x: Info)
      requires Valid() && t.log >= 0 && obj in m.L.block && (x.proc == Unreachable ==> needUnreachable)
      requires forall p <- t.Recs() :: p in t.key && t.key[p] != obj
      modifies t, `info, `last
      ensures old(Unique()) ==> Unique()
      ensures Valid() && Moved(old(Where()), Where())
      ensures last !in old(t.key) && t.Recs() == old(t.Recs()) + {last}
      ensures t.key == old(t.key)[last := obj] && info == old(info)[last := x]
    {
      hide Linked, Chained, Total, Members, Placed, KeysUnique, Moved, Recorded;
      AddFacts(obj, x);
      info := info[last + 1 := x];
      last := last + 1;
      Append(last, obj);
      TableMoved(old(Where()), Where());
    }

    lemma AddFacts(obj: Obj, x: Info)
      requires Valid() && t.log >= 0 && obj in m.L.block && (x.proc == Unreachable ==> needUnreachable)
      requires forall p <- t.Recs() :: p in t.key && t.key[p] != obj
      ensures last + 1 !in t.key && Listed()
      ensures Recorded(m.L, t.key[last + 1 := obj], info[last + 1 := x], last + 1, needUnreachable)
      ensures Unique() ==> KeysUnique(t.key[last + 1 := obj], t.Recs() + {last + 1})
    {
      if Unique() { UniqueAdd(t.key, t.Recs(), last + 1, obj); }
    }

    method Append(p: Ptr, obj: Obj)
      requires Listed() && t.log >= 0 && p != 0 && p !in t.key
      modifies t
      ensures Listed() && t.Recs() == old(t.Recs()) + {p} && t.key == old(t.key)[p := obj] && t.log >= 0
    {
      hide Linked, Chained, Total, Members, Placed;
      LinkedIn(t.next, queue, q);
      QueueApart(Where(), t.key.Keys);
      PlacedAdd(Where(), t.key.Keys, p);
      ghost var next0 := t.next;
      t.Insert(p, obj);
      assert t.key.Keys == old(t.key.Keys) + {p};
      assert Where() == old(Where()).(table := old(t.Recs()) + {p});
      LinkedFrame(next0, t.next, queue, q);
    }

    /****** the second pass of GC_finalize ******/

    // Take one record out of its chain and put it at the front of the queue.
    method Enqueue(i: nat, prev: Ptr, curr: Ptr, ghost j: nat)
      requires Listed() && i < |t.chains| && j < |t.chains[i]| && curr == t.chains[i][j]
      requires prev == if j == 0 then 0 else t.chains[i][j - 1]
      modifies t`heads, t`next, t`entries, t`chains, `queue, `q
      ensures Listed() && t.Recs() == old(t.Recs()) - {curr} && q == [curr] + old(q)
      ensures |t.heads| == |t.chains| == |old(t.chains)|
      ensures j <= |t.chains[i]| && t.chains[i][j..] == old(t.chains)[i][j + 1..]
      ensures prev == if j == 0 then 0 else t.chains[i][j - 1]
      ensures forall k :: 0 <= k < |t.chains| && k != i ==> t.chains[k] == old(t.chains)[k]
    {
      hide Linked, Chained, Total, Members, Placed, Without;
      EnqueueFacts(i, j);
      ghost var next0 := t.next;
      t.Unlink(i, prev, curr, j);
      LinkFront(next0, curr);
      t.next := t.next[curr := queue];
      queue := curr;
      q := [curr] + q;
    }

    lemma EnqueueFacts(i: nat, j: nat)
      requires Listed() && i < |t.chains| && j < |t.chains[i]|
      ensures var curr := t.chains[i][j];
              && t.Valid() && curr != 0 && curr in t.Recs() && t.next.Keys == t.key.Keys
              && Linked(t.next, queue, q) && curr !in q && forall p <- q :: p in t.next && p !in t.Recs()
      ensures Placed(Places(t.Recs() - {t.chains[i][j]}, [t.chains[i][j]] + q, ran, gone), t.key.Keys)
      ensures var c := Without(t.chains[i], j);
              |t.heads| == |t.chains| && j <= |c| && c[j..] == t.chains[i][j + 1..] &&
                  (j > 0 ==> c[j - 1] == t.chains[i][j - 1])
    {
      t.Step(i, j);
      WithoutTail(t.chains[i], j);
      hide Linked, Chained, Total, Members, Placed, Without;
      LinkedIn(t.next, queue, q);
      QueueApart(Where(), t.key.Keys);
      PlacedEnqueue(Where(), t.key.Keys, t.chains[i][j]);
    }

    // A record that is off its chain may point to the queue.  next0 are the links when it was on.
    lemma LinkFront(next0: map<Ptr, Ptr>, curr: Ptr)
      requires t.Valid() && curr != 0 && curr !in t.Recs() && curr !in q && Linked(next0, queue, q)
      requires forall p <- q :: p in next0 && p in t.next && t.next[p] == next0[p]
      ensures Linked(t.next[curr := queue], curr, [curr] + q) && t.entries == Total(t.chains)
      ensures Chained(t.heads, t.log, t.next[curr := queue], t.key, t.chains) && |t.heads| == |t.chains|
    {
      LinkedFrame(next0, t.next, queue, q);
      LinkedCons(t.next, queue, q, curr);
      ChainedFrame(t.heads, t.log, t.next, t.key, t.chains, curr, queue);
    }

    // The same, and outside Java mode mark the object itself.
    method Take(i: nat, prev: Ptr, curr: Ptr, ghost j: nat)
      requires Listed() && i < |t.chains| && j < |t.chains[i]| && curr == t.chains[i][j]
      requires prev == if j == 0 then 0 else t.chains[i][j - 1]
      requires m.Settling() && curr in t.key && t.key[curr] in m.L.block
      modifies t`heads, t`next, t`entries, t`chains, `queue, `q, m`marked
      ensures Listed() && t.Recs() == old(t.Recs()) - {curr} && q == [curr] + old(q)
      ensures |t.heads| == |t.chains| == |old(t.chains)|
      ensures j <= |t.chains[i]| && t.chains[i][j..] == old(t.chains)[i][j + 1..]
      ensures prev == if j == 0 then 0 else t.chains[i][j - 1]
      ensures forall k :: 0 <= k < |t.chains| && k != i ==> t.chains[k] == old(t.chains)[k]
      ensures m.Settling() && m.marked == if java then old(m.marked) else old(m.marked) + {t.key[curr]}
    {
      hide *;
      if !java {
        m.SetBit(t.key[curr]);
      }
      Enqueue(i, prev, curr, j);
    }

    // One record of the second pass, number j0 of chain i as it is now.  Number j comes next.
    method EnqueueOne(i: nat, prev0: Ptr, curr: Ptr, ghost j0: nat, ghost recs0: set<Ptr>, ghost q0: seq<Ptr>,
                      ghost m1: set<Obj>,
                      ghost done: set<Ptr>, ghost es0: seq<Ptr>)
      returns (prev: Ptr, next: Ptr, ghost j: nat, ghost es: seq<Ptr>)
      requires Listed() && m.Settling() && i < |t.chains| && j0 < |t.chains[i]| && curr == t.chains[i][j0]
      requires prev0 == if j0 == 0 then 0 else t.chains[i][j0 - 1]
      requires done <= recs0 && curr in recs0 && curr !in done
      requires curr in t.key && t.key[curr] in m.L.block
      requires Sorted(t.key, recs0, q0, m1, java, done, es0, t.Recs(), q, m.marked)
      modifies t`heads, t`next, t`entries, t`chains, `queue, `q, m`marked
      ensures Listed() && m.Settling() && next == At(old(t.chains)[i], j0 + 1)
      ensures |t.heads| == |t.chains| == |old(t.chains)|
      ensures j <= |t.chains[i]| && t.chains[i][j..] == old(t.chains)[i][j0 + 1..]
      ensures prev == if j == 0 then 0 else t.chains[i][j - 1]
      ensures forall k :: 0 <= k < |t.chains| && k != i ==> t.chains[k] == old(t.chains)[k]
      ensures Sorted(t.key, recs0, q0, m1, java, done + {curr}, es, t.Recs(), q, m.marked)
    {
      hide *;
      TableListed();
      t.Step(i, j0);
      SortedNext(t.key, recs0, q0, m1, java, done, es0, t.Recs(), q, m.marked, curr);
      next := t.next[curr];
      if t.key[curr] !in m.marked {
        prev, j, es := prev0, j0, [curr] + es0;
        Take(i, prev, curr, j);
      } else {
        prev, j, es := curr, j0 + 1, es0;
      }
    }

    lemma TableListed()
      requires Listed()
      ensures t.Valid() && |t.heads| == |t.chains|
    {
    }

    lemma StartFacts(i: nat, c: seq<Ptr>, done: set<Ptr>)
      requires Listed() && i < |t.chains| && t.chains[i] == c
      ensures |t.heads| == |t.chains| && t.heads[i] == At(c, 0) && (t.heads[i] == 0 <==> c == [])
      ensures Seen(done, c, 0) == done && Seen(done, c, |c|) == done + Elems(c) && c[0..] == c
      ensures Distinct(c) && forall p <- c :: p != 0
    {
      assert Linked(t.next, t.heads[i], c);
      LinkedIn(t.next, t.heads[i], c);
      ChainStart(t.next, t.heads[i], c, done);
    }

    method EnqueueChain(i: nat, ghost orig: seq<seq<Ptr>>, ghost recs0: set<Ptr>, ghost q0: seq<Ptr>,
                        ghost m1: set<Obj>, ghost es0: seq<Ptr>)
      returns (ghost es: seq<Ptr>)
      requires Listed() && m.Settling() && i < |t.heads| == |orig| && SameFrom(t.chains, orig, i)
      requires Surveyed(m.L, t.log, t.key, orig, recs0)
      requires Sorted(t.key, recs0, q0, m1, java, Members(orig[..i]), es0, t.Recs(), q, m.marked)
      modifies t`heads, t`next, t`entries, t`chains, `queue, `q, m`marked
      ensures Listed() && m.Settling() && |t.heads| == |orig| && SameFrom(t.chains, orig, i + 1)
      ensures Sorted(t.key, recs0, q0, m1, java, Members(orig[..i]) + Elems(orig[i]), es, t.Recs(), q, m.marked)
    {
      es := es0;
      var prev, curr := 0, t.heads[i];
      ghost var c := orig[i];
      ghost var n: nat, j: nat := 0, 0;
      ghost var chains0 := t.chains;
      StartFacts(i, c, Members(orig[..i]));
      hide *;
      while curr != 0
        invariant n <= |c| && curr == At(c, n)
        invariant curr == 0 <==> n == |c|
        invariant Listed()
        invariant m.Settling()
        invariant |t.heads| == |orig|
        invariant |t.chains| == |orig| && j <= |t.chains[i]| && t.chains[i][j..] == c[n..]
        invariant SameFrom(t.chains, orig, i + 1)
        invariant prev == if j == 0 then 0 else t.chains[i][j - 1]
        invariant Sorted(t.key, recs0, q0, m1, java, Seen(Members(orig[..i]), c, n), es, t.Recs(), q, m.marked)
        decreases |c| - n
      {
        VisitSurveyed(m.L, t.log, t.key, orig, recs0, i, n);
        TailStep(t.chains[i], j, c, n);
        prev, curr, j, es := EnqueueOne(i, prev, curr, j, recs0, q0, m1, Seen(Members(orig[..i]), c, n), es);
        n := n + 1;
      }
    }

    // The second pass: the records whose objects the first left unmarked go to the queue.  es are these records,
    // the latest first.
    method EnqueuePass() returns (ghost es: seq<Ptr>)
      requires Valid() && m.Settling()
      modifies t`heads, t`next, t`entries, t`chains, `queue, `q, m`marked
      ensures Valid() && m.Settling()
      ensures Sorted(t.key, old(t.Recs()), old(q), old(m.marked), java, old(t.Recs()), es, t.Recs(), q, m.marked)
    {
      hide *;
      ghost var orig, recs0, q0, m1 := t.chains, t.Recs(), q, m.marked;
      es := [];
      BeforePass();
      for i := 0 to |t.heads|
        invariant |t.heads| == |orig| && SameFrom(t.chains, orig, i)
        invariant Listed() && m.Settling()
        invariant Sorted(t.key, recs0, q0, m1, java, Members(orig[..i]), es, t.Recs(), q, m.marked)
      {
        es := EnqueueChain(i, orig, recs0, q0, m1, es);
        MembersSnoc(orig, i);
      }
      ValidAgain();
    }

    lemma BeforePass()
      requires Valid()
      ensures |t.heads| == |t.chains| && SameFrom(t.chains, t.chains, 0)
      ensures Surveyed(m.L, t.log, t.key, t.chains, t.Recs())
      ensures Sorted(t.key, t.Recs(), q, m.marked, java, Members(t.chains[..0]), [], t.Recs(), q, m.marked)
      ensures Members(t.chains[..|t.chains|]) == t.Recs()
      ensures Listed() && Recorded(m.L, t.key, info, last, needUnreachable) && (t.log < 0 ==> last == 0)
    {
      hide Linked;
      SortedStart(t.key, t.Recs(), q, m.marked, java);
      assert t.chains[..|t.chains|] == t.chains;
      assert forall p <- Where().table :: p in t.key;
    }

    /****** reviving (Java mode) ******/

    // Take queue record number j, curr, off the queue and put it back into the table.
    method Revive(prev: Ptr, curr: Ptr, ghost j: nat)
      requires Listed() && t.log >= 0 && j < |q| && curr == q[j] && prev == if j == 0 then 0 else q[j - 1]
      modifies t`heads, t`next, t`key, t`entries, t`chains, `queue, `q
      ensures Listed() && t.key == old(t.key) && t.Recs() == old(t.Recs()) + {curr}
      ensures q == Without(old(q), j)
    {
      hide Linked, Chained, Total, Members, Placed, Without;
      LinkedIn(t.next, queue, q);
      LinkedStep(t.next, queue, q, j);
      QueueApart(Where(), t.key.Keys);
      PlacedRevive(Where(), t.key.Keys, j);
      LinkedWithout(t.next, queue, q, j);
      assert j > 0 ==> prev in q;
      ghost var next1 := Unlinked(t.next, q, j);
      if prev == 0 {
        queue := t.next[curr];
      } else {
        ChainedFrame(t.heads, t.log, t.next, t.key, t.chains, prev, t.next[curr]);
        t.next := t.next[prev := t.next[curr]];
      }
      q := Without(q, j);
      assert t.next == next1;
      WithoutIn(old(q), j, curr);
      LinkedIn(t.next, queue, q);
      t.Insert(curr, t.key[curr]);
      LinkedFrame(next1, t.next, queue, q);
      assert t.key == old(t.key) && t.next.Keys == old(t.next.Keys);
    }

    // One record of the queue, number j0 as it is now.  Number j comes next.
    method ReviveOne(prev0: Ptr, curr: Ptr, ghost j0: nat, ghost c: seq<Ptr>, ghost n: nat, ghost recs1: set<Ptr>,
                     ghost m1: set<Obj>)
      returns (prev: Ptr, next: Ptr, ghost j: nat)
      requires Listed() && m.Quiet() && t.log >= 0 && j0 < |q| && curr == q[j0]
      requires prev0 == if j0 == 0 then 0 else q[j0 - 1]
      requires curr in t.key && curr in info && t.key[curr] in m.L.block
      requires t.key[curr] in m.marked || Seeds(m.L, m.mem, info[curr].proc, t.key[curr]) <= m.marked
      requires n < |c| && Distinct(c) && curr == c[n]
      requires Sifted(t.key, info, recs1, m1, c, n, t.Recs(), q, j0, m.marked)
      modifies t`heads, t`next, t`key, t`entries, t`chains, `queue, `q, m`marked
      ensures Listed() && m.Quiet() && t.key == old(t.key) && next == At(c, n + 1)
      ensures j <= |q| && prev == if j == 0 then 0 else q[j - 1]
      ensures Sifted(t.key, info, recs1, m1, c, n + 1, t.Recs(), q, j, m.marked)
    {
      hide *;
      QueueStep(j0, c, n, recs1, m1);
      SiftNext(t.key, info, recs1, m1, c, n, t.Recs(), q, j0, m.marked);
      WithoutTail(q, j0);
      next := t.next[curr];
      prev, j := curr, j0 + 1;
      if info[curr].proc == Unreachable {
        if t.key[curr] !in m.marked {
          m.SetTracedBit(t.key[curr], Unreachable);
        } else {
          prev, j := prev0, j0;
          Revive(prev, curr, j);
        }
      }
    }

    lemma QueueStep(j: nat, c: seq<Ptr>, n: nat, recs1: set<Ptr>, m1: set<Obj>)
      requires Listed() && j < |q| && n < |c| && Sifted(t.key, info, recs1, m1, c, n, t.Recs(), q, j, m.marked)
      ensures q[j] in t.next && t.next[q[j]] == At(c, n + 1)
    {
      LinkedStep(t.next, queue, q, j);
      TailStep(q, j, c, n);
    }

    // The fourth pass: records that have to wait until their objects are led to by no other one that is ready.
    method RevivePass()
      requires Listed() && m.Quiet() && (t.log < 0 ==> q == [])
      requires Primed(m.L, m.mem, t.key, info, q, m.marked)
      modifies t`heads, t`next, t`key, t`entries, t`chains, `queue, `q, m`marked
      ensures Listed() && m.Quiet() && t.key == old(t.key)
      ensures t.Recs() == old(t.Recs()) + Back(t.key, info, old(q), old(m.marked))
      ensures q == Rest(old(q), Back(t.key, info, old(q), old(m.marked)))
      ensures m.marked == old(m.marked) + KeysOf(t.key, Lonely(t.key, info, old(q), old(m.marked)))
    {
      var prev, curr := 0, queue;
      ghost var c, recs1, m1 := q, t.Recs(), m.marked;
      ghost var n: nat, j: nat := 0, 0;
      LinkedIn(t.next, queue, q);
      ChainStart(t.next, queue, q, {});
      SiftStart(t.key, info, recs1, m1, c);
      hide *;
      while curr != 0
        invariant n <= |c| && curr == At(c, n)
        invariant curr == 0 <==> n == |c|
        invariant Listed()
        invariant m.Quiet()
        invariant t.key == old(t.key)
        invariant j <= |q| && prev == if j == 0 then 0 else q[j - 1]
        invariant Sifted(t.key, info, recs1, m1, c, n, t.Recs(), q, j, m.marked)
        decreases |c| - n
      {
        NonNull(c, n);
        SiftedTail(t.key, info, recs1, m1, c, n, t.Recs(), q, j, m.marked);
        PrimedAt(m.L, m.mem, t.key, info, c, m1, curr, m.marked);
        prev, curr, j := ReviveOne(prev, curr, j, c, n, recs1, m1);
        n := n + 1;
      }
      SiftEnd(t.key, info, recs1, m1, c, t.Recs(), q, j, m.marked);
    }

    // The two Java passes over the queue.  mA is what is marked between them.
    method JavaPasses(grow: nat -> bool) returns (ok: bool, ghost mA: set<Obj>)
      requires Valid() && m.Quiet() && Primed(m.L, m.mem, t.key, info, q, m.marked)
      modifies t`heads, t`next, t`key, t`entries, t`chains, `queue, `q,
               m`marked, m`depth, m`state, m`tooSmall, m`objectsAreMarked, m`scan, m`stack, m`extra, m.stack
      ensures m.stack == old(m.stack) || fresh(m.stack)
      ensures m.FewRoots() ==> ok
      ensures t.key == old(t.key) && m.mem == old(m.mem)
      ensures ok ==> Valid() && m.Quiet()
      ensures ok ==> PostMarks(m.L, m.mem, t.key, info, old(m.marked), Elems(old(q)), mA)
      ensures ok ==> t.Recs() == old(t.Recs()) + Back(t.key, info, old(q), mA)
      ensures ok ==> q == Rest(old(q), Back(t.key, info, old(q), mA))
      ensures ok ==> m.marked == mA + KeysOf(t.key, Lonely(t.key, info, old(q), mA))
    {
      hide *;
      ghost var m1 := m.marked;
      NoTableNoQueue();
      ok := PostPass(m, queue, t.next, t.key, info, grow, q);
      mA := m.marked;
      if ok {
        BetweenPasses(m.L, m.mem, t.key, info, q, m1, mA);
        ReviveIfNeeded();
        ValidAgain();
      }
    }

    lemma ValidAgain()
      requires Listed() && Recorded(m.L, t.key, info, last, needUnreachable) && (t.log < 0 ==> last == 0)
      ensures Valid()
    {
    }

    // The pass is skipped if no record was ever registered that way; then none can go back.
    method ReviveIfNeeded()
      requires Listed() && m.Quiet() && (t.log < 0 ==> q == [])
      requires needUnreachable || forall p <- info :: info[p].proc != Unreachable
      requires Primed(m.L, m.mem, t.key, info, q, m.marked)
      modifies t`heads, t`next, t`key, t`entries, t`chains, `queue, `q, m`marked
      ensures Listed() && m.Quiet() && t.key == old(t.key)
      ensures t.Recs() == old(t.Recs()) + Back(t.key, info, old(q), old(m.marked))
      ensures q == Rest(old(q), Back(t.key, info, old(q), old(m.marked)))
      ensures m.marked == old(m.marked) + KeysOf(t.key, Lonely(t.key, info, old(q), old(m.marked)))
    {
      hide *;
      if needUnreachable {
        RevivePass();
      } else {
        NothingToRevive(t.key, info, q, m.marked);
      }
    }

    lemma NoTableNoQueue()
      requires Valid()
      ensures Linked(t.next, queue, q) && Listed()
      ensures needUnreachable || forall p <- info :: info[p].proc != Unreachable
      ensures t.log < 0 ==> q == [] && last == 0
      ensures Recorded(m.L, t.key, info, last, needUnreachable)
    {
      if q != [] {
        QueueApart(Where(), t.key.Keys);
        assert q[0] in q && q[0] in t.key;
      }
    }

    // The queue is pushed with the roots (finalize.c:84-90), so a collection marks what it refers to.
    ghost predicate QueueMarked()
      reads this, t, m
    {
      forall p <- q :: p in t.key && t.key[p] in m.marked
    }

    // GC_finalize, after a collection.  es are the records newly found ready, the latest first; over the
    // objects that mark stack overflows marked on the way; mA what is marked between the passes of Java mode.
    method GcFinalize(grow: nat -> bool)
      returns (ok: bool, ghost es: seq<Ptr>, ghost over: set<Obj>, ghost mA: set<Obj>)
      requires Valid() && m.Quiet() && QueueMarked()
      modifies t`heads, t`next, t`key, t`entries, t`chains, `queue, `q,
               m`marked, m`depth, m`state, m`tooSmall, m`objectsAreMarked, m`scan, m`stack, m`extra, m.stack
      ensures m.stack == old(m.stack) || fresh(m.stack)
      ensures m.FewRoots() ==> ok
      ensures t.key == old(t.key) && m.mem == old(m.mem)
      ensures ok ==> Valid() && Moved(old(Where()), Where()) && m.Settling() && (java ==> m.Quiet())
      ensures ok ==>
                Finalized(m.L, m.mem, t.key, info, java, old(t.Recs()), old(q), old(m.marked), over, es, mA, t.Recs(),
                    q, m.marked)
      ensures ok ==> PointerClosed(m.L, m.mem, AfterFirst(m.L, m.mem, t.key, info, old(t.Recs()), old(m.marked), over))
      ensures ok && old(m.Spacious()) ==> over == {}
      ensures ok && |old(t.Recs())| == 1 && old(AllLost(m, t.key, info, t.Recs())) ==>
                KeysOf(t.key, old(t.Recs())) <= over
    {
      hide *;
      KnowQueue();
      WhereIs();
      ghost var m0, w := m.marked, Where();
      ok, es, over, mA := AllPasses(grow);
      if ok {
        WhereIs();
        FinalizedMoved(m.L, m.mem, t.key, info, java, m0, over, es, mA, m.marked, w, Where());
      }
    }

    method AllPasses(grow: nat -> bool) returns (ok: bool, ghost es: seq<Ptr>, ghost over: set<Obj>, ghost mA: set<Obj>)
      requires Valid() && m.Quiet()
      requires forall p <- q :: p in t.key && p in info && t.key[p] in m.L.block && t.key[p] in m.marked
      requires forall p <- t.Recs() :: p in t.key && p in info && t.key[p] in m.L.block
      requires Chained(t.heads, t.log, t.next, t.key, t.chains) && t.Recs() == Members(t.chains)
      modifies t`heads, t`next, t`key, t`entries, t`chains, `queue, `q,
               m`marked, m`depth, m`state, m`tooSmall, m`objectsAreMarked, m`scan, m`stack, m`extra, m.stack
      ensures m.stack == old(m.stack) || fresh(m.stack)
      ensures m.FewRoots() ==> ok
      ensures t.key == old(t.key) && m.mem == old(m.mem)
      ensures ok ==> Valid() && m.Settling() && (java ==> m.Quiet())
      ensures ok ==>
                Finalized(m.L, m.mem, t.key, info, java, old(t.Recs()), old(q), old(m.marked), over, es, mA, t.Recs(),
                    q, m.marked)
      ensures ok ==> PointerClosed(m.L, m.mem, AfterFirst(m.L, m.mem, t.key, info, old(t.Recs()), old(m.marked), over))
      ensures ok && old(m.Spacious()) ==> over == {}
      ensures ok && |old(t.Recs())| == 1 && old(AllLost(m, t.key, info, t.Recs())) ==>
                KeysOf(t.key, old(t.Recs())) <= over
    {
      hide *;
      ghost var recs0, q0, m0, mem, key := t.Recs(), q, m.marked, m.mem, t.key;
      ghost var m1;
      ok, es, over, m1 := FirstPasses(grow);
      mA := {};
      if ok {
        ghost var recs1, q1, mark1 := t.Recs(), q, m.marked;
        if java {
          SortedJava(key, recs0, q0, m1, java, recs0, es, recs1, q1, mark1);
          PrimedReady(m.L, mem, key, info, recs0, q0, m0, over, es, recs1, q1, m1);
          ok, mA := JavaPasses(grow);
          if ok { m.QuietSettles(); }
        }
        if ok {
          AfterFirstIs(m.L, mem, key, info, m0, recs0, over, m1);
          FinalizedIs(m.L, mem, key, info, java, recs0, q0, m0, over, es, m1, recs1, q1, mark1, mA, t.Recs(), q,
              m.marked);
        }
      }
    }

    lemma KnowQueue()
      requires Valid() && QueueMarked()
      ensures forall p <- q :: p in t.key && p in info && t.key[p] in m.L.block && t.key[p] in m.marked
      ensures forall p <- t.Recs() :: p in t.key && p in info && t.key[p] in m.L.block
      ensures Chained(t.heads, t.log, t.next, t.key, t.chains) && t.Recs() == Members(t.chains)
    {
    }

    // The passes up to and including the one that fills the queue.
    method FirstPasses(grow: nat -> bool)
      returns (ok: bool, ghost es: seq<Ptr>, ghost over: set<Obj>, ghost m1: set<Obj>)
      requires Valid() && m.Quiet()
      requires forall p <- t.Recs() :: p in t.key && p in info && t.key[p] in m.L.block
      requires Chained(t.heads, t.log, t.next, t.key, t.chains) && t.Recs() == Members(t.chains)
      modifies t`heads, t`next, t`entries, t`chains, `queue, `q,
               m`marked, m`depth, m`state, m`tooSmall, m`objectsAreMarked, m`scan, m`stack, m`extra, m.stack
      ensures m.stack == old(m.stack) || fresh(m.stack)
      ensures m.FewRoots() ==> ok
      ensures m.mem == old(m.mem)
      ensures ok ==> Valid() && m.Settling() && (java ==> m.Quiet())
      ensures ok ==>
                Marks(m.L, m.mem, t.key, info, old(m.marked), old(t.Recs()), over, m1) && PointerClosed(m.L, m.mem, m1)
      ensures ok && old(m.Spacious()) ==> over == {}
      ensures ok && |old(t.Recs())| == 1 && old(AllLost(m, t.key, info, t.Recs())) ==>
                KeysOf(t.key, old(t.Recs())) <= over
      ensures ok ==> Sorted(t.key, old(t.Recs()), old(q), m1, java, old(t.Recs()), es, t.Recs(), q, m.marked)
    {
      hide *;
      es := [];
      ok, over := MarkPass(m, t.heads, t.next, t.key, info, grow, t.log, t.chains);
      m1 := m.marked;
      if ok {
        m.QuietSettles();
        m.QuietIffClosed();
        es := EnqueuePass();
        SortedJava(t.key, old(t.Recs()), old(q), m1, java, old(t.Recs()), es, t.Recs(), q, m.marked);
        m.QuietIffClosed();
      }
    }

    // One round of GC_invoke_finalizers: take the first record off the queue and hand out what it holds.
    method RunNext() returns (o: Obj, x: Info)
      requires Valid() && queue != 0
      modifies t`next, `queue, `q, `ran, `info
      ensures Valid() && Moved(old(Where()), Where()) && t.Recs() == old(t.Recs())
      ensures |old(q)| > 0 && q == old(q)[1..] && ran == old(ran) + [old(q)[0]]
      ensures old(q)[0] in t.key && o == t.key[old(q)[0]] && old(q)[0] in old(info) && x == old(info)[old(q)[0]]
      ensures info == old(info)[old(q)[0] := x.(data := 0)]
    {
      hide *;
      var curr := queue;
      QueueFirst();
      NoTableNoQueue();
      WhereIs();
      Pop();
      o, x := t.key[curr], info[curr];
      DataCleared(m.L, t.key, info, last, needUnreachable, curr);
      info := info[curr := x.(data := 0)];
      WhereIs();
      ValidAgain();
    }

    lemma DataCleared(L: Layout, key: map<Ptr, Obj>, info: map<Ptr, Info>, last: Ptr, need: bool, p: Ptr)
      requires Recorded(L, key, info, last, need) && p in info
      ensures info[p := info[p].(data := 0)].Keys == info.Keys
      ensures Recorded(L, key, info[p := info[p].(data := 0)], last, need)
    {
    }

    lemma QueueFirst()
      requires Valid() && queue != 0
      ensures |q| > 0 && q[0] == queue && queue in t.key && queue in info
    {
      LinkedIn(t.next, queue, q);
      QueueApart(Where(), t.key.Keys);
      assert q[0] in q;
    }

    // What the first record of the queue leaves behind.
    lemma PopFacts()
      requires Listed() && queue != 0
      ensures |q| > 0 && queue == q[0] && queue in t.next && t.next.Keys == t.key.Keys
      ensures Linked(t.next[queue := 0], t.next[queue], q[1..])
      ensures Chained(t.heads, t.log, t.next[queue := 0], t.key, t.chains) && t.entries == Total(t.chains)
      ensures var w := Places(t.Recs(), q[1..], ran + [queue], gone); Placed(w, t.key.Keys) && Moved(Where(), w)
    {
      hide Moved, Total, Members;
      LinkedIn(t.next, queue, q);
      LinkedStep(t.next, queue, q, 0);
      QueueApart(Where(), t.key.Keys);
      PlacedRun(Where(), t.key.Keys);
      LinkedWithout(t.next, queue, q, 0);
      assert Without(q, 0) == q[1..];
      WithoutIn(q, 0, queue);
      LinkedIn(t.next, t.next[queue], q[1..]);
      LinkedFrame(t.next, t.next[queue := 0], t.next[queue], q[1..]);
      ChainedFrame(t.heads, t.log, t.next, t.key, t.chains, queue, 0);
    }

    method Pop()
      requires Listed() && queue != 0
      modifies t`next, `queue, `q, `ran
      ensures Listed() && Moved(old(Where()), Where()) && t.Recs() == old(t.Recs())
      ensures |old(q)| > 0 && q == old(q)[1..] && ran == old(ran) + [old(q)[0]]
    {
      hide Linked, Chained, Total, Members, Placed, Moved;
      PopFacts();
      var curr := queue;
      queue := t.next[curr];
      t.next := t.next[curr := 0];
      q := q[1..];
      ran := ran + [curr];
    }

    // GC_invoke_finalizers, with finalizers that do not call back: all of the queue is run, in its order.
    method InvokeFinalizers() returns (count: nat)
      requires Valid()
      modifies t`next, `queue, `q, `ran, `info
      ensures Valid() && t.Recs() == old(t.Recs())
      ensures q == [] && queue == 0 && ran == old(ran) + old(q) && count == |old(q)|
    {
      count := 0;
      QueueHead();
      ghost var q0, r0 := q, ran;
      assert r0 + q0[..0] == r0 && q0[0..] == q0;
      hide *;
      while queue != 0
        invariant Valid()
        invariant t.Recs() == old(t.Recs())
        invariant queue == 0 <==> q == []
        invariant count <= |q0| && q == q0[count..]
        invariant ran == r0 + q0[..count]
        decreases |q|
      {
        HandOver(r0, q0, count, ran, q);
        var o, x := RunNext();
        QueueHead();
        count := count + 1;
      }
      assert q0[..count] == q0;
    }

    lemma QueueHead()
      requires Valid()
      ensures queue == 0 <==> q == []
    {
      LinkedIn(t.next, queue, q);
      if q != [] { LinkedStep(t.next, queue, q, 0); }
    }

    // GC_enqueue_all_finalizers, without its marking: the whole table goes to the queue.
    method EnqueueAll() returns (ghost es: seq<Ptr>)
      requires Valid()
      modifies t`heads, t`next, t`entries, t`chains, `queue, `q
      ensures Valid() && Moved(old(Where()), Where())
      ensures t.Recs() == {} && t.entries == 0
      ensures q == es + old(q) && Elems(es) == old(t.Recs())
    {
      hide *;
      es := [];
      ghost var w := Where();
      WhereIs();
      AtStart(old(q));
      for i := 0 to |t.heads|
        invariant Valid()
        invariant |t.heads| == |t.chains| == |old(t.heads)|
        invariant forall k :: 0 <= k < i ==> t.chains[k] == []
        invariant q == es + old(q)
        invariant t.Recs() + Elems(es) == old(t.Recs())
        invariant gone == old(gone) && ran == old(ran)
      {
        es := EmptyChain(i, old(q), es, old(t.Recs()));
      }
      AllEmpty(t.chains);
      NoRecs();
      WhereIs();
      AllMoved(w, Where(), es);
    }

    lemma NoRecs()
      requires Valid() && Members(t.chains) == {} && Total(t.chains) == 0
      ensures t.Recs() == {} && t.entries == 0
    {
    }

    lemma FindReady()
      requires Valid()
      ensures t.Valid()
    {
      hide Linked, Placed, HashChains.Chained;
    }

    lemma AtStart(q0: seq<Ptr>)
      requires Valid()
      ensures |t.heads| == |t.chains| && q0 == [] + q0 && Elems([]) == {}
    {
      hide Linked, Placed;
    }

    lemma WhereIs()
      ensures Where() == Places(t.Recs(), q, ran, gone)
    {
    }

    method EnqueueHead(i: nat)
      requires Valid() && i < |t.heads| == |t.chains| && t.heads[i] != 0
      modifies t`heads, t`next, t`entries, t`chains, `queue, `q
      ensures Valid() && |t.heads| == |t.chains| == |old(t.heads)| && (t.heads[i] == 0 <==> t.chains[i] == [])
      ensures |t.chains[i]| < |old(t.chains)[i]|
      ensures forall k :: 0 <= k < |t.chains| && k != i ==> t.chains[k] == old(t.chains)[k]
      ensures q == [old(t.heads)[i]] + old(q) && t.Recs() == old(t.Recs()) - {old(t.heads)[i]}
      ensures old(t.heads)[i] in old(t.Recs())
    {
      ChainHead(i);
      t.Step(i, 0);
      hide *;
      Enqueue(i, 0, t.heads[i], 0);
      ChainHead(i);
    }

    lemma ChainHead(i: nat)
      requires Valid() && i < |t.heads| == |t.chains|
      ensures t.heads[i] == 0 <==> t.chains[i] == []
      ensures t.heads[i] != 0 ==> t.heads[i] == t.chains[i][0]
    {
      assert Linked(t.next, t.heads[i], t.chains[i]);
      LinkedIn(t.next, t.heads[i], t.chains[i]);
      if t.chains[i] != [] { LinkedStep(t.next, t.heads[i], t.chains[i], 0); }
    }

    method EmptyChain(i: nat, ghost q0: seq<Ptr>, ghost es0: seq<Ptr>, ghost recs0: set<Ptr>)
      returns (ghost es: seq<Ptr>)
      requires Valid() && i < |t.heads| == |t.chains| && q == es0 + q0 && t.Recs() + Elems(es0) == recs0
      modifies t`heads, t`next, t`entries, t`chains, `queue, `q
      ensures Valid() && |t.heads| == |t.chains| == |old(t.heads)| && t.chains[i] == []
      ensures forall k :: 0 <= k < |t.chains| && k != i ==> t.chains[k] == old(t.chains)[k]
      ensures q == es + q0 && t.Recs() + Elems(es) == recs0
    {
      es := es0;
      ChainHead(i);
      hide *;
      while t.heads[i] != 0
        invariant Valid()
        invariant |t.heads| == |t.chains| == |old(t.heads)|
        invariant t.heads[i] == 0 <==> t.chains[i] == []
        invariant forall k :: 0 <= k < |t.chains| && k != i ==> t.chains[k] == old(t.chains)[k]
        invariant q == es + q0
        invariant t.Recs() + Elems(es) == recs0
        decreases |t.chains[i]|
      {
        ghost var curr := t.heads[i];
        NextHead(curr, es, q0, t.Recs());
        EnqueueHead(i);
        es := [curr] + es;
      }
    }
  }

  lemma PlacedAdd(w: Places, all: set<Ptr>, p: Ptr)
    requires Placed(w, all) && p !in all
    ensures Placed(w.(table := w.table + {p}), all + {p}) && p !in w.table
  {
    assert p !in w.table && p !in Elems(w.q) && p !in Elems(w.ran) && p !in w.gone;
  }

  lemma PlacedEnqueue(w: Places, all: set<Ptr>, p: Ptr)
    requires Placed(w, all) && p in w.table
    ensures Placed(w.(table := w.table - {p}, q := [p] + w.q), all)
  {
    InElems(w.q, p);
    assert Elems([p] + w.q) == {p} + Elems(w.q);
  }

  lemma PlacedRevive(w: Places, all: set<Ptr>, j: nat)
    requires Placed(w, all) && j < |w.q|
    ensures w.q[j] in all && w.q[j] !in w.table
    ensures Placed(w.(table := w.table + {w.q[j]}, q := Without(w.q, j)), all)
  {
    InElems(w.q, w.q[j]);
    assert w.q[j] in w.q;
    var r := Without(w.q, j);
    forall p ensures p in Elems(r) <==> p in Elems(w.q) && p != w.q[j] {
      WithoutIn(w.q, j, p);
    }
    WithoutDistinct(w.q, j);
  }

  lemma WithoutDistinct(s: seq<Ptr>, j: nat)
    requires Distinct(s) && j < |s|
    ensures Distinct(Without(s, j))
  {
    var r := Without(s, j);
    forall x, y | 0 <= x < y < |r| ensures r[x] != r[y] {
      assert r[x] == s[if x < j then x else x + 1] && r[y] == s[if y < j then y else y + 1];
    }
  }

  lemma QueueApart(w: Places, all: set<Ptr>)
    requires Placed(w, all)
    ensures forall p <- w.q :: p in all && p !in w.table
  {
    forall p | p in w.q ensures p in all && p !in w.table { InElems(w.q, p); }
  }

  /****** the first pass of GC_finalize ******/

  // What the first pass has marked once it has seen the records in done; `over` are the objects that
  // mark stack overflows marked.
  ghost predicate Marks(L: Layout, mem: map<Area, seq<Word>>, key: map<Ptr, Obj>, info: map<Ptr, Info>,
                        m0: set<Obj>, done: set<Ptr>, over: set<Obj>, marked: set<Obj>) {
    && marked == m0 + Traced(L, mem, key, info, done) + over
    && over !! m0 && over <= KeysOf(key, done)
  }

  lemma MarksNothing(L: Layout, mem: map<Area, seq<Word>>, key: map<Ptr, Obj>, info: map<Ptr, Info>, m0: set<Obj>)
    ensures Marks(L, mem, key, info, m0, {}, {}, m0)
  {
    assert Traced(L, mem, key, info, {}) == {};
  }

  lemma MarksOne(L: Layout, mem: map<Area, seq<Word>>, key: map<Ptr, Obj>, info: map<Ptr, Info>,
                 m0: set<Obj>, done: set<Ptr>, over: set<Obj>, p: Ptr, before: set<Obj>, reach: set<Obj>, x: set<Obj>)
    requires p in key && p in info && Marks(L, mem, key, info, m0, done, over, before)
    requires reach == ReachSet(L, mem, Seeds(L, mem, info[p].proc, key[p]))
    requires x == {} || (x == {key[p]} && key[p] !in before)
    ensures Marks(L, mem, key, info, m0, done + {p}, over + x, before + reach + x)
  {
    hide ReachSet, Seeds, Traced, KeysOf;
    TracedAdd(L, mem, key, info, done, p);
    KeysAdd(key, done, p);
    var t, t2 := Traced(L, mem, key, info, done), Traced(L, mem, key, info, done + {p});
    MarksSets(m0, t, over, before, reach, x, t2);
  }

  lemma MarksSets(m0: set<Obj>, t: set<Obj>, over: set<Obj>, before: set<Obj>, reach: set<Obj>, x: set<Obj>,
                  t2: set<Obj>)
    requires before == m0 + t + over && t2 == t + reach && over !! m0 && x !! before
    ensures before + reach + x == m0 + t2 + (over + x) && over + x !! m0
  {
  }

  // One object: if it is unmarked, mark what it leads to.
  method MarkRecord(m: Marker, p: Ptr, key: map<Ptr, Obj>, info: map<Ptr, Info>, grow: nat -> bool,
                    ghost m0: set<Obj>, ghost done: set<Ptr>, ghost over0: set<Obj>)
    returns (ok: bool, ghost over: set<Obj>)
    requires m.Quiet() && p in key && p in info && key[p] in m.L.block
    requires Marks(m.L, m.mem, key, info, m0, done, over0, m.marked)
    modifies m`marked, m`depth, m`state, m`tooSmall, m`objectsAreMarked, m`scan, m`stack, m`extra, m.stack
    ensures m.stack == old(m.stack) || fresh(m.stack)
    ensures m.FewRoots() ==> ok
    ensures m.mem == old(m.mem)
    ensures ok ==> m.Quiet() && Marks(m.L, m.mem, key, info, m0, done + {p}, over, m.marked)
    ensures ok && old(m.Spacious()) ==> over == over0 && m.Spacious()
    ensures over0 <= over && (old(Lost(m, key[p], info[p].proc)) ==> key[p] in over)
  {
    hide *;
    IsLost(m, key[p], info[p].proc);
    ghost var before := m.marked;
    var overflow := false;
    ok := true;
    if key[p] in m.marked {
      m.MarkedAlready(key[p], info[p].proc);
    } else {
      ok, overflow := m.MarkFo(key[p], info[p].proc, grow);
    }
    ghost var x := if overflow then {key[p]} else {};
    over := over0 + x;
    if ok {
      ghost var reach := ReachSet(m.L, m.mem, Seeds(m.L, m.mem, info[p].proc, key[p]));
      MarksOne(m.L, m.mem, key, info, m0, done, over0, p, before, reach, x);
      assert m.marked == before + reach + x;
    }
  }

  // The records seen before number n of a chain.
  ghost function Seen(done: set<Ptr>, c: seq<Ptr>, n: nat): set<Ptr>
    requires n <= |c|
  {
    done + Elems(c[..n])
  }

  lemma ChainStart(next: map<Ptr, Ptr>, head: Ptr, c: seq<Ptr>, done: set<Ptr>)
    requires Linked(next, head, c)
    ensures head == At(c, 0) && (head == 0 <==> c == []) && Seen(done, c, 0) == done
    ensures Seen(done, c, |c|) == done + Elems(c)
  {
    if c != [] { LinkedStep(next, head, c, 0); }
    assert c[..|c|] == c;
  }

  lemma ChainNext(next: map<Ptr, Ptr>, head: Ptr, c: seq<Ptr>, n: nat, done: set<Ptr>)
    requires Linked(next, head, c) && n < |c|
    ensures c[n] == At(c, n) && c[n] in c && c[n] in next && next[c[n]] == At(c, n + 1)
    ensures At(c, n + 1) == 0 <==> n + 1 == |c|
    ensures Seen(done, c, n) + {c[n]} == Seen(done, c, n + 1)
  {
    LinkedStep(next, head, c, n);
    if n + 1 < |c| { LinkedStep(next, head, c, n + 1); }
    assert c[..n + 1] == c[..n] + [c[n]];
  }

  // The marker is as it was.
  twostate predicate Still(m: Marker)
    reads m, m.stack
  {
    unchanged(m) && unchanged(m.stack)
  }

  // The records of one chain.
  method MarkChain(m: Marker, head: Ptr, next: map<Ptr, Ptr>, key: map<Ptr, Obj>, info: map<Ptr, Info>,
                   grow: nat -> bool,
                   ghost c: seq<Ptr>, ghost m0: set<Obj>, ghost done: set<Ptr>, ghost over0: set<Obj>)
    returns (ok: bool, ghost over: set<Obj>)
    requires m.Quiet() && Linked(next, head, c)
    requires forall p <- c :: p in key && p in info && key[p] in m.L.block
    requires Marks(m.L, m.mem, key, info, m0, done, over0, m.marked)
    modifies m`marked, m`depth, m`state, m`tooSmall, m`objectsAreMarked, m`scan, m`stack, m`extra, m.stack
    ensures m.stack == old(m.stack) || fresh(m.stack)
    ensures m.FewRoots() ==> ok
    ensures m.mem == old(m.mem)
    ensures ok ==> m.Quiet() && Marks(m.L, m.mem, key, info, m0, done + Elems(c), over, m.marked)
    ensures ok && old(m.Spacious()) ==> over == over0 && m.Spacious()
    ensures over0 <= over && (c == [] ==> ok && over == over0 && Still(m))
    ensures ok && c != [] && old(Lost(m, key[c[0]], info[c[0]].proc)) ==> key[c[0]] in over
  {
    hide Linked, Marker.Quiet, Marks, Marker.Spacious, Marker.FewRoots, Lost, Seen, Elems, At, LinkAt;
    over := over0;
    var curr := head;
    ghost var n: nat := 0;
    ChainStart(next, head, c, done);
    ok := true;
    while ok && curr != 0
      invariant n <= |c| && curr == At(c, n) && (curr == 0 <==> n == |c|)
      invariant m.FewRoots() ==> ok
      invariant m.stack == old(m.stack) || fresh(m.stack)
      invariant m.mem == old(m.mem)
      invariant ok ==> m.Quiet() && Marks(m.L, m.mem, key, info, m0, Seen(done, c, n), over, m.marked)
      invariant ok && old(m.Spacious()) ==> over == over0
      invariant ok && old(m.Spacious()) ==> m.Spacious()
      invariant over0 <= over
      invariant if n == 0 then ok && over == over0 && Still(m)
                else old(Lost(m, key[c[0]], info[c[0]].proc)) ==> key[c[0]] in over
      decreases |c| - n
    {
      ChainNext(next, head, c, n, done);
      ok, over := MarkRecord(m, curr, key, info, grow, m0, Seen(done, c, n), over);
      curr := next[curr];
      n := n + 1;
    }
  }

  // The object is unmarked, and tracing from it overflows the mark stack, which marks the object itself.
  ghost predicate Lost(m: Marker, o: Obj, proc: MarkProc)
    reads m, m.stack
  {
    o !in m.marked && m.Crowded(o, proc)
  }

  lemma IsLost(m: Marker, o: Obj, proc: MarkProc)
    ensures Lost(m, o, proc) <==> o !in m.marked && m.Crowded(o, proc)
  {
  }

  ghost predicate AllLost(m: Marker, key: map<Ptr, Obj>, info: map<Ptr, Info>, recs: set<Ptr>)
    reads m, m.stack
  {
    forall p <- recs :: p in key && p in info && Lost(m, key[p], info[p].proc)
  }

  lemma OnlyOne(m: Marker, key: map<Ptr, Obj>, info: map<Ptr, Info>, recs: set<Ptr>, c: seq<Ptr>)
    requires forall p <- c :: p in recs && p in key && p in info
    ensures |recs| == 1 && c != [] ==> recs == {c[0]} && KeysOf(key, recs) == {key[c[0]]}
    ensures |recs| == 1 && c != [] && AllLost(m, key, info, recs) ==> Lost(m, key[c[0]], info[c[0]].proc)
    ensures c == [] ==> Elems(c) == {}
    ensures c != [] ==> Elems(c) != {}
  {
    if |recs| == 1 && c != [] {
      Singleton(recs, c[0]);
    }
    if c != [] { assert c[0] in Elems(c); }
  }

  lemma Singleton(recs: set<Ptr>, p: Ptr)
    requires |recs| == 1 && p in recs
    ensures recs == {p}
  {
    assert |recs - {p}| == 0;
  }

  // The first pass: everything that one or more pointers from registered objects lead to gets marked.
  method MarkPass(m: Marker, heads: seq<Ptr>, next: map<Ptr, Ptr>, key: map<Ptr, Obj>, info: map<Ptr, Info>,
                  grow: nat -> bool,
                  ghost log: int, ghost chains: seq<seq<Ptr>>)
    returns (ok: bool, ghost over: set<Obj>)
    requires m.Quiet() && Chained(heads, log, next, key, chains)
    requires forall p <- Members(chains) :: p in key && p in info && key[p] in m.L.block
    modifies m`marked, m`depth, m`state, m`tooSmall, m`objectsAreMarked, m`scan, m`stack, m`extra, m.stack
    ensures m.stack == old(m.stack) || fresh(m.stack)
    ensures m.FewRoots() ==> ok
    ensures m.mem == old(m.mem)
    ensures ok ==> m.Quiet() && Marks(m.L, m.mem, key, info, old(m.marked), Members(chains), over, m.marked)
    ensures ok && old(m.Spacious()) ==> over == {} && m.Spacious()
    ensures ok && |Members(chains)| == 1 && old(AllLost(m, key, info, Members(chains))) ==>
              KeysOf(key, Members(chains)) <= over
  {
    over := {};
    ghost var lost := AllLost(m, key, info, Members(chains));
    MarksNothing(m.L, m.mem, key, info, m.marked);
    assert |heads| == |chains| && Members(chains[..0]) == {};
    hide Linked, Members, Marker.Quiet, Marks, Marker.Spacious, Marker.FewRoots, Lost, AllLost, KeysOf, Hashed;
    ok := true;
    for i := 0 to |heads|
      invariant m.stack == old(m.stack) || fresh(m.stack)
      invariant m.mem == old(m.mem)
      invariant m.Quiet() && Marks(m.L, m.mem, key, info, old(m.marked), Members(chains[..i]), over, m.marked)
      invariant old(m.Spacious()) ==> over == {}
      invariant old(m.Spacious()) ==> m.Spacious()
      invariant if Members(chains[..i]) == {} then Still(m)
                else |Members(chains)| == 1 && lost ==> KeysOf(key, Members(chains)) <= over
    {
      forall p | p in chains[i] ensures p in Members(chains) { InMembers(chains, i, p); }
      OnlyOne(m, key, info, Members(chains), chains[i]);
      ok, over := MarkChain(m, heads[i], next, key, info, grow, chains[i], old(m.marked), Members(chains[..i]), over);
      if !ok {
        return;
      }
      MembersSnoc(chains, i);
    }
    assert chains[..|heads|] == chains;
  }

  // What is known of the records in the table before the pass.
  ghost predicate Surveyed(L: Layout, log: int, key: map<Ptr, Key>, orig: seq<seq<Ptr>>, recs0: set<Ptr>) {
    && Hashed(log, key, orig) && recs0 == Members(orig)
    && forall p <- recs0 :: p in key && key[p] in L.block
  }

  // The chains from number i on are as they were.
  ghost predicate SameFrom(chains: seq<seq<Ptr>>, orig: seq<seq<Ptr>>, i: nat) {
    |chains| == |orig| && forall k :: i <= k < |orig| ==> chains[k] == orig[k]
  }

  lemma VisitSurveyed(L: Layout, log: int, key: map<Ptr, Key>, orig: seq<seq<Ptr>>, recs0: set<Ptr>, i: nat, n: nat)
    requires Surveyed(L, log, key, orig, recs0)
    requires i < |orig| && Distinct(orig[i]) && n < |orig[i]| && forall p <- orig[i] :: p != 0
    ensures orig[i][n] in key && key[orig[i][n]] in L.block
    ensures var seen := Seen(Members(orig[..i]), orig[i], n);
            && seen <= recs0 && orig[i][n] in recs0 && orig[i][n] !in seen
            && seen + {orig[i][n]} == Seen(Members(orig[..i]), orig[i], n + 1)
    ensures orig[i][n] == At(orig[i], n) && (At(orig[i], n + 1) == 0 <==> n + 1 == |orig[i]|)
  {
    hide Seen, Members, Hashed;
    VisitNext(log, key, orig, i, n);
  }

  lemma VisitNext(log: int, key: map<Ptr, Key>, orig: seq<seq<Ptr>>, i: nat, n: nat)
    requires Hashed(log, key, orig) && i < |orig| && Distinct(orig[i]) && n < |orig[i]| && forall p <- orig[i] :: p != 0
    ensures var seen := Seen(Members(orig[..i]), orig[i], n);
            && seen <= Members(orig) && orig[i][n] in Members(orig) && orig[i][n] !in seen
            && seen + {orig[i][n]} == Seen(Members(orig[..i]), orig[i], n + 1)
    ensures orig[i][n] == At(orig[i], n) && (At(orig[i], n + 1) == 0 <==> n + 1 == |orig[i]|)
  {
    NotMoved(orig, key, log, i, n);
    InMembers(orig, i, orig[i][n]);
    hide Members, Hashed;
    forall p | p in Members(orig[..i]) ensures p in Members(orig) {
      var x := MembersAt(orig[..i], p);
      InMembers(orig, x, p);
    }
    forall p | p in orig[i][..n] ensures p in Members(orig) {
      InMembers(orig, i, p);
    }
    assert orig[i][..n + 1] == orig[i][..n] + [orig[i][n]];
    if n + 1 < |orig[i]| { assert orig[i][n + 1] in orig[i]; }
  }

  lemma TailStep(s: seq<Ptr>, j: nat, c: seq<Ptr>, n: nat)
    requires j <= |s| && n < |c| && s[j..] == c[n..]
    ensures j < |s| && s[j] == c[n] && s[j + 1..] == c[n + 1..] && At(s, j + 1) == At(c, n + 1)
  {
    assert |s[j..]| == |c[n..]|;
    assert s[j..][0] == c[n..][0];
    assert s[j + 1..] == s[j..][1..] && c[n + 1..] == c[n..][1..];
    if n + 1 < |c| { assert s[j..][1] == c[n..][1]; }
  }

  lemma WithoutTail(s: seq<Ptr>, j: nat)
    requires j < |s|
    ensures |Without(s, j)| == |s| - 1 && Without(s, j)[j..] == s[j + 1..]
    ensures j > 0 ==> Without(s, j)[j - 1] == s[j - 1]
  {
  }

  // The records newly queued of those seen: all with unmarked objects in Java mode, otherwise one for each such object.
  ghost predicate Picked(key: map<Ptr, Obj>, done: set<Ptr>, m1: set<Obj>, java: bool, es: seq<Ptr>) {
    if java then Elems(es) == Unmarked(key, done, m1)
    else
      && Elems(es) <= Unmarked(key, done, m1) && KeysUnique(key, Elems(es))
      && KeysOf(key, Elems(es)) == KeysOf(key, Unmarked(key, done, m1))
  }

  // If no object has two records these are all the records with unmarked objects.
  lemma PickedAll(key: map<Ptr, Obj>, recs: set<Ptr>, m1: set<Obj>, java: bool, es: seq<Ptr>)
    requires Picked(key, recs, m1, java, es) && (java || KeysUnique(key, recs))
    ensures Elems(es) == Unmarked(key, recs, m1)
  {
    forall p | p in Unmarked(key, recs, m1) ensures p in Elems(es) {
      assert key[p] in KeysOf(key, Unmarked(key, recs, m1));
      var r :| r in Elems(es) && r in key && key[r] == key[p];
      assert java || r == p;
    }
  }

  // Where the second pass stands: of the records seen, those with unmarked objects are on the queue, and
  // outside Java mode their objects are marked.
  ghost predicate Sorted(key: map<Ptr, Obj>, recs0: set<Ptr>, q0: seq<Ptr>, m1: set<Obj>, java: bool,
                         done: set<Ptr>, es: seq<Ptr>, recs: set<Ptr>, q: seq<Ptr>, marked: set<Obj>) {
    && Picked(key, done, m1, java, es)
    && recs == recs0 - Elems(es)
    && q == es + q0
    && marked == if java then m1 else m1 + KeysOf(key, Elems(es))
  }

  lemma SortedStart(key: map<Ptr, Obj>, recs0: set<Ptr>, q0: seq<Ptr>, m1: set<Obj>, java: bool)
    ensures Sorted(key, recs0, q0, m1, java, {}, [], recs0, q0, m1)
  {
    assert [] + q0 == q0;
  }

  // The record p comes next: it is queued if its object is unmarked now.
  lemma SortedNext(key: map<Ptr, Obj>, recs0: set<Ptr>, q0: seq<Ptr>, m1: set<Obj>, java: bool,
                   done: set<Ptr>, es: seq<Ptr>, recs: set<Ptr>, q: seq<Ptr>, marked: set<Obj>, p: Ptr)
    requires Sorted(key, recs0, q0, m1, java, done, es, recs, q, marked)
    requires done <= recs0 && p in recs0 && p !in done && p in key
    ensures p !in Elems(es)
    ensures key[p] in marked ==> Sorted(key, recs0, q0, m1, java, done + {p}, es, recs, q, marked)
    ensures key[p] !in marked ==>
              Sorted(key, recs0, q0, m1, java, done + {p}, [p] + es, recs - {p}, [p] + q,
                  if java then marked else marked + {key[p]})
  {
    assert [p] + (es + q0) == ([p] + es) + q0;
    assert Elems([p] + es) == {p} + Elems(es);
    assert KeysOf(key, Elems([p] + es)) == KeysOf(key, Elems(es)) + {key[p]};
    var u, u2 := Unmarked(key, done, m1), Unmarked(key, done + {p}, m1);
    assert u2 == u + if key[p] in m1 then {} else {p};
    assert KeysOf(key, u2) == KeysOf(key, u) + if key[p] in m1 then {} else {key[p]};
  }

  /****** the post-pass of Java mode ******/

  function AsNormal(info: map<Ptr, Info>): map<Ptr, Info> {
    map p | p in info :: info[p].(proc := MarkProc.Normal)
  }

  // The records of a set that were registered in a given way.
  function Ordinary(info: map<Ptr, Info>, s: set<Ptr>): set<Ptr> {
    set p | p in s && p in info && info[p].proc != Unreachable
  }

  function Unordered(info: map<Ptr, Info>, s: set<Ptr>): set<Ptr> {
    set p | p in s && p in info && info[p].proc == NoOrder
  }

  // What the post-pass has marked once it has seen the records in done.
  ghost predicate PostMarks(L: Layout, mem: map<Area, seq<Word>>, key: map<Ptr, Obj>, info: map<Ptr, Info>,
                            m1: set<Obj>, done: set<Ptr>, marked: set<Obj>) {
    marked == m1 + KeysOf(key, Ordinary(info, done)) + Traced(L, mem, key, AsNormal(info), Unordered(info, done))
  }

  lemma PostNothing(L: Layout, mem: map<Area, seq<Word>>, key: map<Ptr, Obj>, info: map<Ptr, Info>, m1: set<Obj>)
    ensures PostMarks(L, mem, key, info, m1, {}, m1)
  {
    assert Unordered(info, {}) == {} && KeysOf(key, Ordinary(info, {})) == {};
    assert Traced(L, mem, key, AsNormal(info), {}) == {};
  }

  // The marks that one record adds.
  ghost function PostAdds(L: Layout, mem: map<Area, seq<Word>>, o: Obj, proc: MarkProc): set<Obj> {
    (if proc == Unreachable then {} else {o})
    + if proc == NoOrder then ReachSet(L, mem, Seeds(L, mem, MarkProc.Normal, o)) else {}
  }

  lemma PostOne(L: Layout, mem: map<Area, seq<Word>>, key: map<Ptr, Obj>, info: map<Ptr, Info>,
                m1: set<Obj>, done: set<Ptr>, marked: set<Obj>, p: Ptr)
    requires PostMarks(L, mem, key, info, m1, done, marked) && p in key && p in info
    ensures PostMarks(L, mem, key, info, m1, done + {p}, marked + PostAdds(L, mem, key[p], info[p].proc))
  {
    hide ReachSet, Seeds, Traced;
    assert Ordinary(info, done + {p}) == Ordinary(info, done) + if info[p].proc == Unreachable then {} else {p};
    assert KeysOf(key, Ordinary(info, done + {p})) ==
           KeysOf(key, Ordinary(info, done)) + if info[p].proc == Unreachable then {} else {key[p]};
    if info[p].proc == NoOrder {
      assert Unordered(info, done + {p}) == Unordered(info, done) + {p};
      TracedAdd(L, mem, key, AsNormal(info), Unordered(info, done), p);
    } else {
      assert Unordered(info, done + {p}) == Unordered(info, done);
    }
  }

  // One queued record (finalize.c:622-633).
  method PostRecord(m: Marker, o: Obj, proc: MarkProc, grow: nat -> bool) returns (ok: bool)
    requires m.Quiet() && o in m.L.block
    requires o in m.marked || Seeds(m.L, m.mem, proc, o) <= m.marked
    modifies m`marked, m`depth, m`state, m`tooSmall, m`objectsAreMarked, m`scan, m`stack, m`extra, m.stack
    ensures m.stack == old(m.stack) || fresh(m.stack)
    ensures m.FewRoots() ==> ok
    ensures m.mem == old(m.mem)
    ensures ok ==> m.Quiet() && m.marked == old(m.marked) + PostAdds(m.L, m.mem, o, proc)
  {
    hide Marker.Quiet, Marker.FewRoots, Seeds, ReachSet;
    ok := true;
    if o !in m.marked {
      if proc == NoOrder {
        ok := PostUnordered(m, o, grow);
      } else if proc != Unreachable {
        m.SetTracedBit(o, proc);
      }
    } else if proc == NoOrder {
      m.MarkedAlready(o, MarkProc.Normal);
    }
  }

  method PostUnordered(m: Marker, o: Obj, grow: nat -> bool) returns (ok: bool)
    requires m.Quiet() && o in m.L.block
    modifies m`marked, m`depth, m`state, m`tooSmall, m`objectsAreMarked, m`scan, m`stack, m`extra, m.stack
    ensures m.stack == old(m.stack) || fresh(m.stack)
    ensures m.FewRoots() ==> ok
    ensures m.mem == old(m.mem)
    ensures ok ==> m.Quiet()
    ensures ok ==> m.marked == old(m.marked) + {o} + ReachSet(m.L, m.mem, Seeds(m.L, m.mem, MarkProc.Normal, o))
  {
    hide *;
    var overflow;
    ok, overflow := m.MarkFo(o, MarkProc.Normal, grow);
    if ok {
      SeedsMarked(m.L, m.mem, o, m.marked);
      m.SetTracedBit(o, MarkProc.Normal);
    }
  }

  lemma SeedsMarked(L: Layout, mem: map<Area, seq<Word>>, o: Obj, marked: set<Obj>)
    requires ReachSet(L, mem, Seeds(L, mem, MarkProc.Normal, o)) <= marked
    ensures Seeds(L, mem, MarkProc.Normal, o) <= marked
  {
    forall x | x in Seeds(L, mem, MarkProc.Normal, o) ensures x in marked {
      SeedReachable(L, mem, Seeds(L, mem, MarkProc.Normal, o), x);
      assert x in ReachSet(L, mem, Seeds(L, mem, MarkProc.Normal, o));
    }
  }

  // The objects of these records are marked, or what their traces start from is.
  ghost predicate Primed(L: Layout, mem: map<Area, seq<Word>>, key: map<Ptr, Obj>, info: map<Ptr, Info>, q: seq<Ptr>,
                         marked: set<Obj>) {
    forall p <- q :: p in key && p in info && key[p] in L.block
                     && (key[p] in marked || Seeds(L, mem, info[p].proc, key[p]) <= marked)
  }

  lemma PrimedAt(L: Layout, mem: map<Area, seq<Word>>, key: map<Ptr, Obj>, info: map<Ptr, Info>, q: seq<Ptr>,
                 marked: set<Obj>, p: Ptr, more: set<Obj>)
    requires Primed(L, mem, key, info, q, marked) && p in q && marked <= more
    ensures p in key && p in info && key[p] in L.block
    ensures key[p] in more || Seeds(L, mem, info[p].proc, key[p]) <= more
  {
  }

  lemma PostNext(L: Layout, mem: map<Area, seq<Word>>, next: map<Ptr, Ptr>, queue: Ptr, key: map<Ptr, Obj>,
                 info: map<Ptr, Info>,
                 q: seq<Ptr>, n: nat, m1: set<Obj>, marked: set<Obj>)
    requires Linked(next, queue, q) && n < |q|
    requires Primed(L, mem, key, info, q, m1) && PostMarks(L, mem, key, info, m1, Seen({}, q, n), marked)
    ensures var p := q[n];
            p in key && p in info && key[p] in L.block
            && (key[p] in marked || Seeds(L, mem, info[p].proc, key[p]) <= marked)
    ensures q[n] in next && next[q[n]] == At(q, n + 1) && (At(q, n + 1) == 0 <==> n + 1 == |q|)
    ensures PostMarks(L, mem, key, info, m1, Seen({}, q, n + 1), marked + PostAdds(L, mem, key[q[n]], info[q[n]].proc))
  {
    hide Seeds, Traced, ReachSet, PostAdds;
    ChainNext(next, queue, q, n, {});
    PostGrows(L, mem, key, info, m1, Seen({}, q, n), marked);
    PrimedAt(L, mem, key, info, q, m1, q[n], marked);
    PostOne(L, mem, key, info, m1, Seen({}, q, n), marked, q[n]);
  }

  // One turn of the loop: record number n of the queue.
  method PostTurn(m: Marker, curr: Ptr, next: map<Ptr, Ptr>, key: map<Ptr, Obj>, info: map<Ptr, Info>,
                  grow: nat -> bool,
                  ghost queue: Ptr, ghost q: seq<Ptr>, ghost n: nat, ghost m1: set<Obj>)
    returns (ok: bool, after: Ptr)
    requires m.Quiet() && Linked(next, queue, q) && n < |q| && curr == At(q, n)
    requires Primed(m.L, m.mem, key, info, q, m1) && PostMarks(m.L, m.mem, key, info, m1, Seen({}, q, n), m.marked)
    modifies m`marked, m`depth, m`state, m`tooSmall, m`objectsAreMarked, m`scan, m`stack, m`extra, m.stack
    ensures m.stack == old(m.stack) || fresh(m.stack)
    ensures m.FewRoots() ==> ok
    ensures m.mem == old(m.mem)
    ensures after == At(q, n + 1) && (after == 0 <==> n + 1 == |q|)
    ensures ok ==> m.Quiet()
    ensures ok ==> PostMarks(m.L, m.mem, key, info, m1, Seen({}, q, n + 1), m.marked)
  {
    PostNext(m.L, m.mem, next, queue, key, info, q, n, m1, m.marked);
    assert curr == q[n];
    hide *;
    ok := PostRecord(m, key[curr], info[curr].proc, grow);
    after := next[curr];
  }

  // The third pass, over the queue: what records registered without order lead to gets marked, and the objects of
  // all records but those that give way to others.
  method PostPass(m: Marker, queue: Ptr, next: map<Ptr, Ptr>, key: map<Ptr, Obj>, info: map<Ptr, Info>,
                  grow: nat -> bool,
                  ghost q: seq<Ptr>)
    returns (ok: bool)
    requires m.Quiet() && Linked(next, queue, q) && Primed(m.L, m.mem, key, info, q, m.marked)
    modifies m`marked, m`depth, m`state, m`tooSmall, m`objectsAreMarked, m`scan, m`stack, m`extra, m.stack
    ensures m.stack == old(m.stack) || fresh(m.stack)
    ensures m.FewRoots() ==> ok
    ensures m.mem == old(m.mem)
    ensures ok ==> m.Quiet() && PostMarks(m.L, m.mem, key, info, old(m.marked), Elems(q), m.marked)
  {
    ghost var m1, mem := m.marked, m.mem;
    var curr := queue;
    ghost var n: nat := 0;
    ChainStart(next, queue, q, {});
    PostNothing(m.L, mem, key, info, m1);
    assert Seen({}, q, |q|) == Elems(q);
    hide *;
    ok := true;
    while ok && curr != 0
      invariant n <= |q| && curr == At(q, n)
      invariant curr == 0 <==> n == |q|
      invariant m.FewRoots() ==> ok
      invariant m.stack == old(m.stack) || fresh(m.stack)
      invariant m.mem == mem
      invariant ok ==> m.Quiet()
      invariant ok ==> PostMarks(m.L, mem, key, info, m1, Seen({}, q, n), m.marked)
      decreases |q| - n
    {
      ok, curr := PostTurn(m, curr, next, key, info, grow, queue, q, n, m1);
      n := n + 1;
    }
  }

  /****** the queue during reviving ******/

  // The record was registered to be finalized only when nothing leads to its object.
  predicate Yields(key: map<Ptr, Obj>, info: map<Ptr, Info>, p: Ptr) {
    p in key && p in info && info[p].proc == Unreachable
  }

  // Another such record of the same object is before record number k in the queue.
  predicate Repeats(key: map<Ptr, Obj>, info: map<Ptr, Info>, s: seq<Ptr>, k: nat)
    requires k < |s| && s[k] in key
  {
    exists j :: 0 <= j < k && Yields(key, info, s[j]) && s[j] != s[k] && key[s[j]] == key[s[k]]
  }

  // Records that go back into the table: their objects are reachable from others waiting for finalization, or another
  // record of the same object stays.
  function Back(key: map<Ptr, Obj>, info: map<Ptr, Info>, s: seq<Ptr>, marked: set<Obj>): set<Ptr> {
    set k | 0 <= k < |s| && Yields(key, info, s[k]) && (key[s[k]] in marked || Repeats(key, info, s, k)) :: s[k]
  }

  // Records that stay although they may have to give way.
  function Lonely(key: map<Ptr, Obj>, info: map<Ptr, Info>, s: seq<Ptr>, marked: set<Obj>): set<Ptr> {
    set k | 0 <= k < |s| && Yields(key, info, s[k]) && key[s[k]] !in marked && !Repeats(key, info, s, k) :: s[k]
  }

  // Of the records of one unmarked object the first stays.
  lemma {:induction false} FirstStays(key: map<Ptr, Obj>, info: map<Ptr, Info>, s: seq<Ptr>, k: nat, marked: set<Obj>)
    requires k < |s| && Yields(key, info, s[k]) && key[s[k]] !in marked
    ensures key[s[k]] in KeysOf(key, Lonely(key, info, s, marked))
  {
    if Repeats(key, info, s, k) {
      var j :| 0 <= j < k && Yields(key, info, s[j]) && s[j] != s[k] && key[s[j]] == key[s[k]];
      FirstStays(key, info, s, j, marked);
    } else {
      assert s[k] in Lonely(key, info, s, marked);
    }
  }

  lemma RepeatsSnoc(key: map<Ptr, Obj>, info: map<Ptr, Info>, s: seq<Ptr>, p: Ptr, marked: set<Obj>)
    requires p !in s && p in key && key[p] !in marked
    ensures Repeats(key, info, s + [p], |s|) <==> key[p] in KeysOf(key, Lonely(key, info, s, marked))
    ensures forall k :: 0 <= k < |s| && s[k] in key ==> (Repeats(key, info, s + [p], k) <==> Repeats(key, info, s, k))
  {
    var t := s + [p];
    forall k | 0 <= k < |s| && s[k] in key ensures Repeats(key, info, t, k) <==> Repeats(key, info, s, k) {
      assert forall j :: 0 <= j < k ==> t[j] == s[j];
    }
    if Repeats(key, info, t, |s|) {
      var j :| 0 <= j < |s| && Yields(key, info, t[j]) && t[j] != p && key[t[j]] == key[p];
      FirstStays(key, info, s, j, marked);
    }
    if r :| r in Lonely(key, info, s, marked) && r in key && key[r] == key[p] {
      var j :| 0 <= j < |s| && s[j] == r && Yields(key, info, s[j]);
      assert t[j] == r;
    }
  }

  // One more record at the end of the queue.
  lemma BackSnoc(key: map<Ptr, Obj>, info: map<Ptr, Info>, s: seq<Ptr>, p: Ptr, marked: set<Obj>)
    requires p !in s && p in key && p in info
    ensures var back := info[p].proc == Unreachable && key[p] in marked + KeysOf(key, Lonely(key, info, s, marked));
            && Back(key, info, s + [p], marked) == Back(key, info, s, marked) + (if back then {p} else {})
            && Lonely(key, info, s + [p], marked) ==
               Lonely(key, info, s, marked) + (if info[p].proc == Unreachable && !back then {p} else {})
  {
    var t := s + [p];
    assert t[|s|] == p && forall k :: 0 <= k < |s| ==> t[k] == s[k];
    forall k | 0 <= k < |s| && s[k] in key ensures Repeats(key, info, t, k) <==> Repeats(key, info, s, k) {}
    if key[p] !in marked { RepeatsSnoc(key, info, s, p, marked); }
    hide Repeats, KeysOf;
    forall r
      ensures r in Back(key, info, t, marked) <==>
              r in Back(key, info, s, marked) || (r == p && p in Back(key, info, t, marked))
    {
      if k :| 0 <= k < |s| && s[k] == r && Yields(key, info, r) && (key[r] in marked || Repeats(key, info, s, k)) {
        assert t[k] == r;
      }
    }
    forall r
      ensures r in Lonely(key, info, t, marked) <==>
              r in Lonely(key, info, s, marked) || (r == p && p in Lonely(key, info, t, marked))
    {
      if k :| 0 <= k < |s| && s[k] == r && Yields(key, info, r) && key[r] !in marked && !Repeats(key, info, s, k) {
        assert t[k] == r;
      }
    }
  }

  // With at most one record for every unmarked object only those go back whose objects are marked.
  lemma BackApart(key: map<Ptr, Obj>, info: map<Ptr, Info>, s: seq<Ptr>, marked: set<Obj>, p: Ptr)
    requires forall r, x :: r in s && x in s && r in key && x in key && key[r] !in marked && key[r] == key[x] ==> r == x
    ensures p in Back(key, info, s, marked) <==> p in s && Yields(key, info, p) && key[p] in marked
    ensures p in Lonely(key, info, s, marked) <==> p in s && Yields(key, info, p) && key[p] !in marked
  {
    forall k | 0 <= k < |s| && Yields(key, info, s[k]) && Repeats(key, info, s, k) ensures key[s[k]] in marked {
      var j :| 0 <= j < k && Yields(key, info, s[j]) && s[j] != s[k] && key[s[j]] == key[s[k]];
      assert s[j] in s;
    }
  }

  // A list without some records.
  function Rest(s: seq<Ptr>, back: set<Ptr>): seq<Ptr> {
    if s == [] then []
    else Rest(s[..|s| - 1], back) + if s[|s| - 1] in back then [] else [s[|s| - 1]]
  }

  lemma {:induction false} RestIn(s: seq<Ptr>, back: set<Ptr>, p: Ptr)
    ensures p in Rest(s, back) <==> p in s && p !in back
  {
    if s != [] {
      RestIn(s[..|s| - 1], back, p);
      assert s == s[..|s| - 1] + [s[|s| - 1]];
    }
  }

  lemma {:induction false} RestSame(s: seq<Ptr>, back: set<Ptr>, more: set<Ptr>)
    requires forall p <- s :: p in back <==> p in more
    ensures Rest(s, back) == Rest(s, more)
  {
    if s != [] {
      RestSame(s[..|s| - 1], back, more);
    }
  }

  // Where the pass stands after n records of the queue it began with, the first j of which are still queued.
  ghost predicate Sifted(key: map<Ptr, Obj>, info: map<Ptr, Info>, recs1: set<Ptr>, m1: set<Obj>, c: seq<Ptr>, n: nat,
                         recs: set<Ptr>, q: seq<Ptr>, j: nat, marked: set<Obj>) {
    && n <= |c| && j <= |q| && q[j..] == c[n..]
    && recs == recs1 + Back(key, info, c[..n], m1)
    && q[..j] == Rest(c[..n], Back(key, info, c[..n], m1))
    && marked == m1 + KeysOf(key, Lonely(key, info, c[..n], m1))
  }

  lemma SiftStart(key: map<Ptr, Obj>, info: map<Ptr, Info>, recs1: set<Ptr>, m1: set<Obj>, c: seq<Ptr>)
    ensures Sifted(key, info, recs1, m1, c, 0, recs1, c, 0, m1)
  {
  }

  lemma SiftedTail(key: map<Ptr, Obj>, info: map<Ptr, Info>, recs1: set<Ptr>, m1: set<Obj>, c: seq<Ptr>, n: nat,
                   recs: set<Ptr>, q: seq<Ptr>, j: nat, marked: set<Obj>)
    requires Sifted(key, info, recs1, m1, c, n, recs, q, j, marked) && n < |c|
    ensures j < |q| && q[j] == c[n] && c[n] in c && m1 <= marked
  {
    TailStep(q, j, c, n);
  }

  lemma NonNull(c: seq<Ptr>, n: nat)
    requires n < |c| && forall p <- c :: p != 0
    ensures At(c, n) == c[n] && (At(c, n + 1) == 0 <==> n + 1 == |c|)
  {
    if n + 1 < |c| { assert c[n + 1] in c; }
  }

  lemma SiftEnd(key: map<Ptr, Obj>, info: map<Ptr, Info>, recs1: set<Ptr>, m1: set<Obj>, c: seq<Ptr>,
                recs: set<Ptr>, q: seq<Ptr>, j: nat, marked: set<Obj>)
    requires Sifted(key, info, recs1, m1, c, |c|, recs, q, j, marked)
    ensures recs == recs1 + Back(key, info, c, m1) && q == Rest(c, Back(key, info, c, m1))
    ensures marked == m1 + KeysOf(key, Lonely(key, info, c, m1))
  {
    assert c[..|c|] == c && q[j..] == [] && q[..j] == q;
  }

  lemma SiftNext(key: map<Ptr, Obj>, info: map<Ptr, Info>, recs1: set<Ptr>, m1: set<Obj>, c: seq<Ptr>, n: nat,
                 recs: set<Ptr>, q: seq<Ptr>, j: nat, marked: set<Obj>)
    requires Sifted(key, info, recs1, m1, c, n, recs, q, j, marked) && n < |c| && j < |q|
    requires Distinct(c) && c[n] in key && c[n] in info
    ensures info[c[n]].proc != Unreachable ==> Sifted(key, info, recs1, m1, c, n + 1, recs, q, j + 1, marked)
    ensures info[c[n]].proc == Unreachable && key[c[n]] !in marked ==>
              Sifted(key, info, recs1, m1, c, n + 1, recs, q, j + 1, marked + {key[c[n]]})
    ensures info[c[n]].proc == Unreachable && key[c[n]] in marked ==>
              Sifted(key, info, recs1, m1, c, n + 1, recs + {c[n]}, Without(q, j), j, marked)
  {
    var p := c[n];
    var s := c[..n];
    TailStep(q, j, c, n);
    assert c[..n + 1] == s + [p] && c[..n + 1][..n] == s;
    assert p !in s;
    BackSnoc(key, info, s, p, m1);
    hide Back, Lonely;
    var b, b2 := Back(key, info, s, m1), Back(key, info, c[..n + 1], m1);
    RestSame(s, b, b2);
    if info[p].proc == Unreachable && key[p] in marked {
      WithoutTail(q, j);
      assert Without(q, j)[..j] == q[..j];
    } else {
      assert q[..j + 1] == q[..j] + [p];
      if info[p].proc == Unreachable {
        KeysAdd(key, Lonely(key, info, s, m1), p);
      }
    }
  }

  lemma KeysAdd(key: map<Ptr, Obj>, s: set<Ptr>, p: Ptr)
    requires p in key
    ensures KeysOf(key, s + {p}) == KeysOf(key, s) + {key[p]}
  {
  }

  lemma PostGrows(L: Layout, mem: map<Area, seq<Word>>, key: map<Ptr, Obj>, info: map<Ptr, Info>, m1: set<Obj>,
                  done: set<Ptr>, marked: set<Obj>)
    requires PostMarks(L, mem, key, info, m1, done, marked)
    ensures m1 <= marked
  {
  }

  lemma PrimedMore(L: Layout, mem: map<Area, seq<Word>>, key: map<Ptr, Obj>, info: map<Ptr, Info>, q: seq<Ptr>,
                   marked: set<Obj>, more: set<Obj>)
    requires Primed(L, mem, key, info, q, marked) && marked <= more
    ensures Primed(L, mem, key, info, q, more)
  {
  }

  lemma BetweenPasses(L: Layout, mem: map<Area, seq<Word>>, key: map<Ptr, Obj>, info: map<Ptr, Info>, q: seq<Ptr>,
                      m1: set<Obj>, mA: set<Obj>)
    requires PostMarks(L, mem, key, info, m1, Elems(q), mA)
    requires Primed(L, mem, key, info, q, m1)
    ensures Primed(L, mem, key, info, q, mA)
  {
    PostGrows(L, mem, key, info, m1, Elems(q), mA);
    PrimedMore(L, mem, key, info, q, m1, mA);
  }

  lemma NothingToRevive(key: map<Ptr, Obj>, info: map<Ptr, Info>, q: seq<Ptr>, marked: set<Obj>)
    requires forall p <- info :: info[p].proc != Unreachable
    ensures Back(key, info, q, marked) == {} && KeysOf(key, Lonely(key, info, q, marked)) == {}
    ensures Rest(q, {}) == q
  {
    RestAll(q);
  }

  lemma {:induction false} RestAll(s: seq<Ptr>)
    ensures Rest(s, {}) == s
  {
    if s != [] {
      RestAll(s[..|s| - 1]);
    }
  }

  // What is marked after the first pass.
  ghost function AfterFirst(L: Layout, mem: map<Area, seq<Word>>, key: map<Ptr, Obj>, info: map<Ptr, Info>,
                            recs0: set<Ptr>, m0: set<Obj>, over: set<Obj>): set<Obj> {
    m0 + Traced(L, mem, key, info, recs0) + over
  }

  // What GC_finalize has done in the end: m1 is marked after the first pass.
  ghost predicate Finalized(L: Layout, mem: map<Area, seq<Word>>, key: map<Ptr, Obj>, info: map<Ptr, Info>, java: bool,
                            recs0: set<Ptr>, q0: seq<Ptr>, m0: set<Obj>, over: set<Obj>, es: seq<Ptr>, mA: set<Obj>,
                            recs: set<Ptr>, q: seq<Ptr>, marked: set<Obj>) {
    var m1 := AfterFirst(L, mem, key, info, recs0, m0, over);
    && over !! m0 && over <= KeysOf(key, recs0)
    && Picked(key, recs0, m1, java, es)
    && if !java then
         recs == recs0 - Elems(es) && q == es + q0 && marked == m1 + KeysOf(key, Elems(es))
       else
         && PostMarks(L, mem, key, info, m1, Elems(es + q0), mA)
         && recs == recs0 - Elems(es) + Back(key, info, es + q0, mA)
         && q == Rest(es + q0, Back(key, info, es + q0, mA))
         && marked == mA + KeysOf(key, Lonely(key, info, es + q0, mA))
  }

  lemma SortedJava(key: map<Ptr, Obj>, recs0: set<Ptr>, q0: seq<Ptr>, m1: set<Obj>, java: bool,
                   done: set<Ptr>, es: seq<Ptr>, recs: set<Ptr>, q: seq<Ptr>, marked: set<Obj>)
    requires Sorted(key, recs0, q0, m1, java, done, es, recs, q, marked)
    ensures java ==> marked == m1
  {
  }

  lemma PrimedReady(L: Layout, mem: map<Area, seq<Word>>, key: map<Ptr, Obj>, info: map<Ptr, Info>,
                    recs0: set<Ptr>, q0: seq<Ptr>, m0: set<Obj>, over: set<Obj>, es: seq<Ptr>, recs: set<Ptr>,
                    q: seq<Ptr>, m1: set<Obj>)
    requires Marks(L, mem, key, info, m0, recs0, over, m1)
    requires Sorted(key, recs0, q0, m1, true, recs0, es, recs, q, m1)
    requires forall p <- recs0 :: p in key && p in info && key[p] in L.block
    requires forall p <- q0 :: p in key && p in info && key[p] in L.block && key[p] in m0
    ensures Primed(L, mem, key, info, q, m1)
  {
    forall p | p in q
      ensures p in key && p in info && key[p] in L.block && (key[p] in m1 || Seeds(L, mem, info[p].proc, key[p]) <= m1)
    {
      if p in es {
        InElems(es, p);
        SeedsTraced(L, mem, key, info, recs0, p);
      }
    }
  }

  lemma SeedsTraced(L: Layout, mem: map<Area, seq<Word>>, key: map<Ptr, Obj>, info: map<Ptr, Info>, s: set<Ptr>, p: Ptr)
    requires p in s && p in key && p in info
    ensures Seeds(L, mem, info[p].proc, key[p]) <= Traced(L, mem, key, info, s)
  {
    var seeds := Seeds(L, mem, info[p].proc, key[p]);
    forall o | o in seeds ensures o in Traced(L, mem, key, info, s) {
      SeedReachable(L, mem, seeds, o);
      assert TracedFrom(L, mem, key, info, p, o);
    }
  }

  lemma AfterFirstIs(L: Layout, mem: map<Area, seq<Word>>, key: map<Ptr, Obj>, info: map<Ptr, Info>,
                     m0: set<Obj>, recs0: set<Ptr>, over: set<Obj>, m1: set<Obj>)
    requires Marks(L, mem, key, info, m0, recs0, over, m1)
    ensures m1 == AfterFirst(L, mem, key, info, recs0, m0, over)
  {
  }

  lemma FinalizedIs(L: Layout, mem: map<Area, seq<Word>>, key: map<Ptr, Obj>, info: map<Ptr, Info>, java: bool,
                    recs0: set<Ptr>, q0: seq<Ptr>, m0: set<Obj>, over: set<Obj>, es: seq<Ptr>, m1: set<Obj>,
                    recs1: set<Ptr>, q1: seq<Ptr>, mark1: set<Obj>, mA: set<Obj>, recs: set<Ptr>, q: seq<Ptr>,
                    marked: set<Obj>)
    requires Marks(L, mem, key, info, m0, recs0, over, m1)
    requires Sorted(key, recs0, q0, m1, java, recs0, es, recs1, q1, mark1)
    requires if !java then recs == recs1 && q == q1 && marked == mark1
             else
               && PostMarks(L, mem, key, info, m1, Elems(q1), mA)
               && recs == recs1 + Back(key, info, q1, mA) && q == Rest(q1, Back(key, info, q1, mA))
               && marked == mA + KeysOf(key, Lonely(key, info, q1, mA))
    ensures Finalized(L, mem, key, info, java, recs0, q0, m0, over, es, mA, recs, q, marked)
  {
    hide PostMarks, Back, Rest, Lonely, KeysOf, Traced, Unmarked;
  }

  // Nothing is lost and nothing is doubled.
  lemma FinalizedMoved(L: Layout, mem: map<Area, seq<Word>>, key: map<Ptr, Obj>, info: map<Ptr, Info>, java: bool,
                       m0: set<Obj>, over: set<Obj>, es: seq<Ptr>, mA: set<Obj>, marked: set<Obj>, a: Places, b: Places)
    requires Finalized(L, mem, key, info, java, a.table, a.q, m0, over, es, mA, b.table, b.q, marked)
    requires b.ran == a.ran && b.gone == a.gone
    ensures Moved(a, b)
  {
    hide PostMarks, Traced, KeysOf, Lonely;
    var s := es + a.q;
    forall p ensures p in Elems(s) <==> p in Elems(es) || p in Elems(a.q) {
      InElems(s, p);
      InElems(es, p);
      InElems(a.q, p);
    }
    if java {
      forall p ensures p in Elems(b.q) <==> p in Elems(s) && p !in Back(key, info, s, mA) {
        RestIn(s, Back(key, info, s, mA), p);
        InElems(b.q, p);
        InElems(s, p);
      }
      forall p | p in Back(key, info, s, mA) ensures p in Elems(s) { InElems(s, p); }
    }
  }

  lemma PlacedRun(w: Places, all: set<Ptr>)
    requires Placed(w, all) && |w.q| > 0
    ensures Placed(w.(q := w.q[1..], ran := w.ran + [w.q[0]]), all)
    ensures Moved(w, w.(q := w.q[1..], ran := w.ran + [w.q[0]]))
  {
    var p := w.q[0];
    var v := w.(q := w.q[1..], ran := w.ran + [p]);
    assert Without(w.q, 0) == w.q[1..];
    WithoutDistinct(w.q, 0);
    InElems(w.q, p);
    InElems(w.ran, p);
    forall x ensures x in Elems(v.q) <==> x in Elems(w.q) && x != p {
      WithoutIn(w.q, 0, x);
    }
    assert Elems(v.ran) == Elems(w.ran) + {p};
    assert Distinct(v.ran);
  }

  lemma HandOver(r0: seq<Ptr>, q0: seq<Ptr>, n: nat, ran: seq<Ptr>, q: seq<Ptr>)
    requires n <= |q0| && q == q0[n..] && q != [] && ran == r0 + q0[..n]
    ensures q[1..] == q0[n + 1..] && ran + [q[0]] == r0 + q0[..n + 1]
  {
    assert q0[..n + 1] == q0[..n] + [q0[n]];
  }

  lemma NextHead(p: Ptr, es: seq<Ptr>, q0: seq<Ptr>, recs: set<Ptr>)
    ensures [p] + (es + q0) == ([p] + es) + q0
    ensures p in recs ==> recs - {p} + Elems([p] + es) == recs + Elems(es)
  {
    assert Elems([p] + es) == {p} + Elems(es);
  }

  lemma {:induction false} AllEmpty(chains: seq<seq<Ptr>>)
    requires forall k :: 0 <= k < |chains| ==> chains[k] == []
    ensures Members(chains) == {} && Total(chains) == 0
  {
    if chains != [] {
      AllEmpty(chains[..|chains| - 1]);
    }
  }

  lemma AllMoved(a: Places, b: Places, es: seq<Ptr>)
    requires b.table == {} && b.q == es + a.q && b.ran == a.ran && b.gone == a.gone && Elems(es) == a.table
    ensures Moved(a, b)
  {
    forall p ensures p in Elems(b.q) <==> p in Elems(es) || p in Elems(a.q) {
      InElems(b.q, p);
      InElems(es, p);
      InElems(a.q, p);
    }
  }
}
