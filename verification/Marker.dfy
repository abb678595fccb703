/** The mark phase: the bounded mark stack, GC_mark_from, the pushing of roots and blocks, and the
 *  state machine GC_mark_some, with the mutator writes that may come between its steps.
 */
module Marker {
  import opened Common
  import opened MarkDefs

  // The number of words the stack still asks to be examined.
  function Work(st: seq<Entry>): nat {
    if st == [] then 0
    else
      var e := st[|st| - 1];
      Work(st[..|st| - 1]) + (if e.lo < e.hi then e.hi - e.lo else 0)
  }

  lemma WorkPush(st: seq<Entry>, e: Entry)
    ensures Work(st + [e]) == Work(st) + (if e.lo < e.hi then e.hi - e.lo else 0)
  {
    assert (st + [e])[..|st|] == st;
  }

  lemma WithinRework(v: View, w: View, bound: set<Obj>)
    requires Within(v, bound) && w == v.(st := w.st, hand := w.hand)
    requires forall i :: 0 <= i < |w.st| ==> MayScan(v, bound, w.st[i].area)
    requires w.hand.Hand? ==> MayScan(v, bound, w.hand.area)
    ensures Within(w, bound)
  {
    forall i | 0 <= i < |w.st| ensures MayScan(w, bound, w.st[i].area) {
      assert MayScan(v, bound, w.st[i].area);
    }
    forall a, k | a in w.mem && MayScan(w, bound, a) && 0 <= k < |w.mem[a]| && w.mem[a][k] in w.L.resolve
      ensures w.L.resolve[w.mem[a][k]] in bound
    {
      assert MayScan(v, bound, a);
    }
  }

  // The stack after a push, given the size of the array: when it is full, its top entries are dropped.
  ghost function Pushed(st: seq<Entry>, e: Entry, size: nat): seq<Entry>
    requires |st| <= size && size >= GC_MARK_STACK_DISCARDS
  {
    if |st| < size then st + [e] else st[..size - GC_MARK_STACK_DISCARDS] + [e]
  }

  // Marking an object and pushing it, whether the stack overflows or not.
  ghost function MarkPushed(v: View, o: Obj, size: nat): View
    requires |v.st| <= size && size >= GC_MARK_STACK_DISCARDS && Heap(o) in v.L.words
  {
    v.(marked := v.marked + {o}, st := Pushed(v.st, Entry(Heap(o), 0, v.L.words[Heap(o)]), size))
  }

  lemma MarkPushedInv(v: View, m: MarkState, pos: nat, roots: nat, bound: set<Obj>, o: Obj, size: nat)
    requires Inv(v, m, pos, roots) && o in v.L.block && v.L.HasDescr(o)
    requires |v.st| <= size && size >= GC_MARK_STACK_DISCARDS
    ensures Heap(o) in v.L.words
    ensures Shape(MarkPushed(v, o, size))
    ensures Inv(MarkPushed(v, o, size), if |v.st| < size then m else MS_INVALID, pos, roots)
    ensures Within(v, bound) && o in bound ==> Within(MarkPushed(v, o, size), bound)
  {
    assert v.L.IsArea(Heap(o));
    var w := MarkPushed(v, o, size);
    if |v.st| < size {
      InvMarkPush(v, m, pos, roots, o);
    } else {
      assert forall i :: 0 <= i < |w.st| ==>
          w.st[i] == if i < |w.st| - 1 then v.st[i] else Entry(Heap(o), 0, v.L.words[Heap(o)]);
      InvalidInv(w, pos, roots);
    }
    assert forall i :: 0 <= i < |w.st| ==> w.st[i] in v.st || (w.st[i].area == Heap(o) && v.L.HasDescr(o));
    WithinMark(v, w, bound, o);
  }

  lemma WithinMark(v: View, w: View, bound: set<Obj>, o: Obj)
    requires w == v.(st := w.st, marked := v.marked + {o}) && o in v.L.block
    requires forall i :: 0 <= i < |w.st| ==> w.st[i] in v.st || (w.st[i].area == Heap(o) && v.L.HasDescr(o))
    ensures Within(v, bound) && o in bound ==> Within(w, bound)
  {
    if Within(v, bound) && o in bound {
      forall i | 0 <= i < |w.st| ensures MayScan(w, bound, w.st[i].area) {
        if w.st[i] in v.st {
          var j :| 0 <= j < |v.st| && v.st[j] == w.st[i];
          assert MayScan(v, bound, v.st[j].area);
        }
      }
      forall a, k | a in w.mem && MayScan(w, bound, a) && 0 <= k < |w.mem[a]| && w.mem[a][k] in w.L.resolve
        ensures w.L.resolve[w.mem[a][k]] in bound
      {
        assert MayScan(v, bound, a);
      }
    }
  }

  // Words that leave the hand must be settled otherwise.
  lemma ShrinkHand(v: View, m: MarkState, pos: nat, roots: nat, bound: set<Obj>, h: Hand)
    requires Inv(v, m, pos, roots)
    requires v.hand.Hand? && v.hand.area in v.mem
    requires forall k :: 0 <= k < |v.mem[v.hand.area]| && InHand(v.hand, v.hand.area, k) ==>
               || InHand(h, v.hand.area, k)
               || v.mem[v.hand.area][k] !in v.L.resolve
               || v.L.resolve[v.mem[v.hand.area][k]] in v.marked
    requires h.Hand? ==> h.area == v.hand.area
    ensures Inv(v.(hand := h), m, pos, roots)
    ensures Within(v, bound) ==> Within(v.(hand := h), bound)
  {
    var w := v.(hand := h);
    forall a, k | a in v.mem && 0 <= k < |v.mem[a]| && (OnStack(v.st, a, k) || InHand(v.hand, a, k))
      ensures Settled(w, a, k)
    {
    }
    InvRework(v, w, m, pos, roots);
    if Within(v, bound) {
      WithinRework(v, w, bound);
    }
  }

  // GC_mark_from takes the words up to mid of the top entry into its hand; the rest stays on top.
  ghost function TakeTop(v: View, mid: nat): View
    requires |v.st| > 0
  {
    var e := v.st[|v.st| - 1];
    var below := v.st[..|v.st| - 1];
    v.(st := if mid == e.hi then below else below + [Entry(e.area, mid, e.hi)], hand := Hand(e.area, e.lo, mid, -1))
  }

  lemma TakeTopInv(v: View, m: MarkState, pos: nat, roots: nat, bound: set<Obj>, mid: nat)
    requires Inv(v, m, pos, roots) && v.hand == Nothing
    requires |v.st| > 0 && v.st[|v.st| - 1].lo < mid <= v.st[|v.st| - 1].hi
    ensures Inv(TakeTop(v, mid), m, pos, roots)
    ensures Within(v, bound) ==> Within(TakeTop(v, mid), bound)
    ensures Work(TakeTop(v, mid).st) < Work(v.st)
  {
    var e := v.st[|v.st| - 1];
    var below := v.st[..|v.st| - 1];
    var rest := Entry(e.area, mid, e.hi);
    var w := TakeTop(v, mid);
    assert v.st == below + [e];
    if mid < e.hi {
      WorkPush(below, rest);
      assert ValidEntry(v.L, rest);
    }
    forall a, k | a in v.mem && 0 <= k < |v.mem[a]| && (OnStack(v.st, a, k) || InHand(v.hand, a, k))
      ensures Settled(w, a, k)
    {
      OnStackPush(below, e, a, k);
      OnStackPush(below, rest, a, k);
    }
    InvRework(v, w, m, pos, roots);
    if Within(v, bound) {
      assert MayScan(v, bound, e.area);
      WithinRework(v, w, bound);
    }
  }

  // The whole of object o is pending.
  ghost predicate Pending(L: Layout, st: seq<Entry>, o: Obj) {
    Heap(o) in L.words && Entry(Heap(o), 0, L.words[Heap(o)]) in st
  }

  // What a scan for rescuers, uncollectable objects or all marked objects may pass over.
  predicate Wanted(b: nat, blk: Block, m: MarkState, grungy: set<nat>) {
    blk.Used? && match m
                 case MS_PUSH_RESCUERS => b in grungy
                 case MS_PUSH_UNCOLLECTABLE => blk.kind.Uncollectable?
                 case _ => true
  }

  // The scan may move past block b once all its marked objects are pending or need not be.
  lemma AdvancePos(v: View, m: MarkState, b: nat, roots: nat)
    requires Inv(v, m, b, roots)
    requires b < |v.L.blocks| && Wanted(b, v.L.blocks[b], m, v.grungy) && v.L.blocks[b].kind.HasDescr() ==>
               forall o <- v.L.blocks[b].objs :: o in v.marked ==> Pending(v.L, v.st, o)
    ensures Inv(v, m, b + 1, roots)
  {
    forall a, k | a in v.mem && Due(v, a) && !Exempt(v, m, b + 1, roots, a) && 0 <= k < |v.mem[a]|
      ensures Settled(v, a, k)
    {
      if Exempt(v, m, b, roots, a) {
        assert v.L.block[a.o] == b;
        var e := Entry(a, 0, v.L.words[a]);
        var i :| 0 <= i < |v.st| && v.st[i] == e;
        assert Covers(v.st[i], a, k);
      }
    }
  }

  // Pushing an object that is marked already.
  lemma InvPush(v: View, m: MarkState, pos: nat, roots: nat, bound: set<Obj>, o: Obj)
    requires Inv(v, m, pos, roots) && o in v.marked && v.L.HasDescr(o)
    ensures Inv(v.(st := v.st + [Entry(Heap(o), 0, v.L.words[Heap(o)])]), m, pos, roots)
    ensures Within(v, bound) ==> Within(v.(st := v.st + [Entry(Heap(o), 0, v.L.words[Heap(o)])]), bound)
  {
    var e := Entry(Heap(o), 0, v.L.words[Heap(o)]);
    var w := v.(st := v.st + [e]);
    forall a, k | a in v.mem && 0 <= k < |v.mem[a]| && (OnStack(v.st, a, k) || InHand(v.hand, a, k))
      ensures Settled(w, a, k)
    {
      OnStackPush(v.st, e, a, k);
    }
    InvRework(v, w, m, pos, roots);
    if Within(v, bound) {
      assert forall i :: 0 <= i < |v.st| ==> w.st[i] == v.st[i];
      WithinRework(v, w, bound);
    }
  }

  // The next root area comes into the hand.
  lemma TakeRoot(v: View, m: MarkState, pos: nat, r: Area, bound: set<Obj>)
    requires Shape(v) && !r.Heap? && r in v.L.words
    requires Inv(v, m, pos, RootNo(v.L, r)) && v.hand == Nothing
    ensures Inv(v.(hand := Hand(r, 0, v.L.words[r], -1)), m, pos, RootNo(v.L, r) + 1)
    ensures Within(v, bound) ==> Within(v.(hand := Hand(r, 0, v.L.words[r], -1)), bound)
  {
    var w := v.(hand := Hand(r, 0, v.L.words[r], -1));
    forall a, k | a in w.mem && Due(w, a) && !Exempt(w, m, pos, RootNo(v.L, r) + 1, a) && 0 <= k < |w.mem[a]|
      ensures Settled(w, a, k)
    {
      if a != r {
        assert Due(v, a) && !Exempt(v, m, pos, RootNo(v.L, r), a);
        assert Settled(v, a, k);
      }
    }
    if Within(v, bound) {
      WithinRework(v, w, bound);
    }
  }

  // A piece of the root area in hand is pushed.
  lemma PushPiece(v: View, m: MarkState, pos: nat, roots: nat, bound: set<Obj>, mid: nat)
    requires Inv(v, m, pos, roots) && v.hand.Hand? && v.hand.area in v.L.words && v.hand.d == -1
    requires 0 <= v.hand.lo < mid <= v.hand.hi == v.L.words[v.hand.area]
    ensures var w := v.(st := v.st + [Entry(v.hand.area, v.hand.lo, mid)], hand := v.hand.(lo := mid));
            Inv(w, m, pos, roots) && (Within(v, bound) ==> Within(w, bound))
  {
    var e := Entry(v.hand.area, v.hand.lo, mid);
    var w := v.(st := v.st + [e], hand := v.hand.(lo := mid));
    forall a, k | a in v.mem && 0 <= k < |v.mem[a]| && (OnStack(v.st, a, k) || InHand(v.hand, a, k))
      ensures Settled(w, a, k)
    {
      OnStackPush(v.st, e, a, k);
    }
    InvRework(v, w, m, pos, roots);
    if Within(v, bound) {
      assert forall i :: 0 <= i < |v.st| ==> w.st[i] == v.st[i];
      WithinRework(v, w, bound);
    }
  }

  // How a finalizer's object is traced: GC_normal_, GC_unreachable_, GC_ignore_self_ and GC_null_finalize_mark_proc.
  datatype MarkProc = Normal | Unreachable | IgnoreSelf | NoOrder {
    predicate PushesObject() { Normal? || Unreachable? }
  }

  // The objects such a trace starts from.
  ghost function Seeds(L: Layout, mem: map<Area, seq<Word>>, proc: MarkProc, p: Obj): (s: set<Obj>)
    ensures forall o :: o in s <==> o in L.block && p in L.block && L.HasDescr(p) && PointsTo(L, mem, Heap(p), o)
                                    && proc != NoOrder && (proc == IgnoreSelf ==> o != p)
  {
    set o | o in L.block && p in L.block && L.HasDescr(p) && PointsTo(L, mem, Heap(p), o)
            && proc != NoOrder && (proc == IgnoreSelf ==> o != p)
  }

  // The objects of a set that have pointers.
  ghost function Heavy(L: Layout, s: set<Obj>): set<Obj> {
    set o | o in s && o in L.block && L.HasDescr(o)
  }

  // Of the objects that were marked, all with pointers were pushed, or the stack has overflowed.
  ghost predicate PushedAll(L: Layout, m0: set<Obj>, d0: nat, marked: set<Obj>, depth: nat, state: MarkState) {
    state == MS_INVALID || d0 + |Heavy(L, marked) - m0| <= depth
  }

  lemma PushedNone(L: Layout, m0: set<Obj>, d0: nat, state: MarkState)
    ensures PushedAll(L, m0, d0, m0, d0, state)
  {
    assert Heavy(L, m0) - m0 == {};
  }

  lemma PushedMore(L: Layout, m0: set<Obj>, d0: nat, m1: set<Obj>, d1: nat, s1: MarkState, m2: set<Obj>, d2: nat,
                   s2: MarkState)
    requires PushedAll(L, m0, d0, m1, d1, s1) && PushedAll(L, m1, d1, m2, d2, s2) && m0 <= m1 <= m2
    requires s1 == MS_INVALID ==> s2 == MS_INVALID
    ensures PushedAll(L, m0, d0, m2, d2, s2)
  {
    assert Heavy(L, m2) - m0 == (Heavy(L, m1) - m0) + (Heavy(L, m2) - m1);
  }

  lemma HeavySeeds(L: Layout, seeds: set<Obj>, m0: set<Obj>, m1: set<Obj>)
    requires seeds <= m1
    ensures |Heavy(L, seeds) - m0| <= |Heavy(L, m1) - m0|
  {
    FewerThan(Heavy(L, seeds) - m0, Heavy(L, m1) - m0);
  }

  lemma FewerThan(s: set<Obj>, t: set<Obj>)
    requires s <= t
    ensures |s| <= |t|
  {
    assert t == s + (t - s);
  }

  lemma OtherIsSeed(L: Layout, mem: map<Area, seq<Word>>, p: Obj, k: nat)
    requires L.WellFormed() && p in L.block && L.HasDescr(p) && Heap(p) in mem && k < |mem[Heap(p)]|
    requires mem[Heap(p)][k] in L.resolve && L.resolve[mem[Heap(p)][k]] != p
    ensures L.resolve[mem[Heap(p)][k]] in Seeds(L, mem, IgnoreSelf, p)
  {
    ResolveInBlock(L, mem[Heap(p)][k]);
    assert PointsTo(L, mem, Heap(p), L.resolve[mem[Heap(p)][k]]);
  }

  // Of the first i words, those that point to objects other than p point into s.
  ghost predicate Others(L: Layout, ws: seq<Word>, p: Obj, i: nat, s: set<Obj>) {
    forall k :: 0 <= k < i && k < |ws| && ws[k] in L.resolve && L.resolve[ws[k]] != p ==> L.resolve[ws[k]] in s
  }

  lemma OthersNone(L: Layout, ws: seq<Word>, p: Obj, s: set<Obj>)
    ensures Others(L, ws, p, 0, s)
  {
  }

  lemma OthersNext(L: Layout, ws: seq<Word>, p: Obj, i: nat, marked: set<Obj>, bound: set<Obj>)
    requires i < |ws| && Others(L, ws, p, |ws|, bound)
    ensures ws[i] in L.resolve && L.resolve[ws[i]] != p ==> L.resolve[ws[i]] in bound
    ensures L.WellFormed() ==> ws[i] in L.resolve ==> L.Plausible(ws[i])
  {
  }

  lemma OthersStep(L: Layout, ws: seq<Word>, p: Obj, i: nat, m1: set<Obj>, m2: set<Obj>)
    requires i < |ws| && Others(L, ws, p, i, m1) && m1 <= m2
    requires ws[i] in L.resolve && L.resolve[ws[i]] != p ==> L.resolve[ws[i]] in m2
    ensures Others(L, ws, p, i + 1, m2)
  {
  }

  lemma OthersMarked(L: Layout, mem: map<Area, seq<Word>>, p: Obj, marked: set<Obj>)
    requires Heap(p) in mem
    requires Others(L, mem[Heap(p)], p, |mem[Heap(p)]|, marked)
    ensures Seeds(L, mem, IgnoreSelf, p) <= marked
  {
  }

  // Object p is pushed to be traced, but not marked.
  lemma FoPushed(v: View, p: Obj, bound: set<Obj>)
    requires Inv(v, MS_NONE, 0, v.L.statics + 1) && v.extra == {} && v.st == [] && p in v.L.block && v.L.HasDescr(p)
    requires Within(v.(extra := {p}), bound)
    ensures var w := v.(extra := {p}, st := v.st + [Entry(Heap(p), 0, v.L.words[Heap(p)])]);
            Shape(w) && Inv(w, MS_NONE, 0, v.L.statics + 1) && Within(w, bound)
  {
    assert v.L.IsArea(Heap(p));
    var e := Entry(Heap(p), 0, v.L.words[Heap(p)]);
    var w := v.(extra := {p}, st := v.st + [e]);
    forall a, k | a in w.mem && Due(w, a) && !Exempt(w, MS_NONE, 0, v.L.statics + 1, a) && 0 <= k < |w.mem[a]|
      ensures Settled(w, a, k)
    {
      OnStackPush(v.st, e, a, k);
      if a != Heap(p) {
        assert Due(v, a) && !Exempt(v, MS_NONE, 0, v.L.statics + 1, a);
        assert Settled(v, a, k);
      }
    }
    WithinRework(v.(extra := {p}), w, bound);
  }

  lemma DropExtra(v: View, p: Obj, bound: set<Obj>)
    requires v.extra == {} && v.st == [] && v.hand == Nothing && Within(v.(extra := {p}), bound)
    ensures Within(v, bound)
  {
    forall a, k | a in v.mem && MayScan(v, bound, a) && 0 <= k < |v.mem[a]| && v.mem[a][k] in v.L.resolve
      ensures v.L.resolve[v.mem[a][k]] in bound
    {
      assert MayScan(v.(extra := {p}), bound, a);
    }
  }

  // Nothing pending, nothing written, nothing owed.
  ghost predicate QuietView(v: View) {
    && Inv(v, MS_NONE, 0, v.L.statics + 1)
    && v.st == [] && v.hand == Nothing && v.dirty == {} && v.rootsDirty == {}
  }

  lemma QuietPointer(v: View, a: Area, o: Obj)
    requires QuietView(v) && Due(v, a) && PointsTo(v.L, v.mem, a, o)
    ensures o in v.marked
  {
    var k :| 0 <= k < |v.mem[a]| && v.mem[a][k] in v.L.resolve && v.L.resolve[v.mem[a][k]] == o;
    assert v.L.IsArea(a);
    assert Settled(v, a, k);
  }

  // In a quiet state whatever is reachable from marked objects is marked.
  lemma QuietReach(v: View, seeds: set<Obj>)
    requires QuietView(v) && seeds <= v.marked
    ensures ReachSet(v.L, v.mem, seeds) <= v.marked
  {
    forall x, y | x in v.marked && x in v.L.block && v.L.HasDescr(x) && PointsTo(v.L, v.mem, Heap(x), y)
      ensures y in v.marked
    {
      QuietPointer(v, Heap(x), y);
    }
    forall o | o in ReachSet(v.L, v.mem, seeds) ensures o in v.marked {
      var p :| ReachesBy(v.L, v.mem, seeds, p, o);
      ClosedContainsReachable(v.L, v.mem, seeds, v.marked, p, o);
    }
  }

  lemma MarkedSeeds(v: View, p: Obj, proc: MarkProc)
    requires QuietView(v) && p in v.marked
    ensures Seeds(v.L, v.mem, proc, p) <= v.marked
  {
    forall o | o in Seeds(v.L, v.mem, proc, p) ensures o in v.marked {
      QuietPointer(v, Heap(p), o);
    }
  }

  // After an undisturbed trace from p, everything p points to is marked.
  lemma FoTraced(v: View, p: Obj, proc: MarkProc)
    requires QuietView(v) && p in v.L.block
    requires proc.PushesObject() ==> v.extra == if v.L.HasDescr(p) then {p} else {}
    ensures QuietView(v.(extra := {}))
    ensures proc.PushesObject() || proc == NoOrder ==> Seeds(v.L, v.mem, proc, p) <= v.marked
  {
    var w := v.(extra := {});
    forall a, k | a in w.mem && Due(w, a) && !Exempt(w, MS_NONE, 0, w.L.statics + 1, a) && 0 <= k < |w.mem[a]|
      ensures Settled(w, a, k)
    {
      assert Due(v, a) && !Exempt(v, MS_NONE, 0, v.L.statics + 1, a);
      assert Settled(v, a, k);
    }
    if proc.PushesObject() {
      forall o | o in Seeds(v.L, v.mem, proc, p) ensures o in v.marked {
        QuietPointer(v, Heap(p), o);
      }
    }
  }

  // The marked objects and everything a trace from p can reach bound that trace.
  lemma FoBounds(v: View, p: Obj, proc: MarkProc, bound: set<Obj>)
    requires QuietView(v) && v.extra == {} && p in v.L.block
    requires bound == v.marked + ReachSet(v.L, v.mem, Seeds(v.L, v.mem, proc, p))
    ensures Within(v.(extra := if proc.PushesObject() then {p} else {}), bound)
    ensures Seeds(v.L, v.mem, proc, p) <= bound
  {
    var seeds := Seeds(v.L, v.mem, proc, p);
    var w := v.(extra := if proc.PushesObject() then {p} else {});
    forall o | o in seeds ensures o in bound {
      SeedReachable(v.L, v.mem, seeds, o);
      assert o in ReachSet(v.L, v.mem, seeds);
    }
    forall a, k | a in w.mem && MayScan(w, bound, a) && 0 <= k < |w.mem[a]| && w.mem[a][k] in w.L.resolve
      ensures w.L.resolve[w.mem[a][k]] in bound
    {
      var o := w.L.resolve[w.mem[a][k]];
      ResolveInBlock(v.L, w.mem[a][k]);
      assert PointsTo(v.L, v.mem, a, o);
      if Due(v, a) {
        QuietPointer(v, a, o);
      } else if a.o in ReachSet(v.L, v.mem, seeds) {
        ReachableStep(v.L, v.mem, seeds, a.o, o);
        assert o in ReachSet(v.L, v.mem, seeds);
      } else {
        assert a == Heap(p) && proc.PushesObject();
        assert o in seeds;
      }
    }
  }

  // Marking p itself adds no more than p.
  lemma FoMarked(v: View, p: Obj, proc: MarkProc, bound: set<Obj>)
    requires Shape(v) && v.extra <= {p} && p in v.L.block && proc != NoOrder && v.st == [] && v.hand == Nothing
    requires Within(v, bound) && Seeds(v.L, v.mem, proc, p) <= bound
    ensures Within(v.(marked := v.marked + {p}, extra := {}), bound + {p})
  {
    var w := v.(marked := v.marked + {p}, extra := {});
    forall a, k | a in w.mem && MayScan(w, bound + {p}, a) && 0 <= k < |w.mem[a]| && w.mem[a][k] in w.L.resolve
      ensures w.L.resolve[w.mem[a][k]] in bound + {p}
    {
      var o := w.L.resolve[w.mem[a][k]];
      if a == Heap(p) {
        assert PointsTo(v.L, v.mem, Heap(p), o);
        ResolveInBlock(v.L, w.mem[a][k]);
      } else {
        assert MayScan(v, bound, a);
      }
    }
  }

  lemma ResolveInBlock(L: Layout, w: Word)
    requires L.WellFormed() && w in L.resolve
    ensures L.resolve[w] in L.block
  {
  }

  // What the roots point to is in s, and s is closed under pointers.
  ghost predicate PointerClosed(L: Layout, mem: map<Area, seq<Word>>, s: set<Obj>) {
    && RootTargets(L, mem) <= s
    && forall x, y {:trigger PointsTo(L, mem, Heap(x), y)} ::
         x in s && x in L.block && L.HasDescr(x) && PointsTo(L, mem, Heap(x), y) ==> y in s
  }

  lemma TracedClosed(L: Layout, mem: map<Area, seq<Word>>, s: set<Obj>, p: Obj, proc: MarkProc)
    requires L.WellFormed() && PointerClosed(L, mem, s) && p in L.block && proc != NoOrder
    requires Seeds(L, mem, proc, p) <= s
    ensures PointerClosed(L, mem, s + {p})
  {
    forall x, y {:trigger PointsTo(L, mem, Heap(x), y)}
      | x in s + {p} && x in L.block && L.HasDescr(x) && PointsTo(L, mem, Heap(x), y)
      ensures y in s + {p}
    {
      if x == p && y != p {
        PointedIn(L, mem, Heap(x), y);
        assert y in Seeds(L, mem, proc, p);
      }
    }
  }

  lemma PointedIn(L: Layout, mem: map<Area, seq<Word>>, a: Area, o: Obj)
    requires L.WellFormed() && PointsTo(L, mem, a, o)
    ensures o in L.block
  {
    var k :| 0 <= k < |mem[a]| && mem[a][k] in L.resolve && L.resolve[mem[a][k]] == o;
    ResolveInBlock(L, mem[a][k]);
  }

  lemma QuietIsClosed(v: View)
    requires QuietView(v)
    ensures PointerClosed(v.L, v.mem, v.marked)
  {
    forall o | o in RootTargets(v.L, v.mem) ensures o in v.marked {
      var a: Area :| !a.Heap? && PointsTo(v.L, v.mem, a, o);
      QuietPointer(v, a, o);
    }
    forall x, y {:trigger PointsTo(v.L, v.mem, Heap(x), y)}
      | x in v.marked && x in v.L.block && v.L.HasDescr(x) && PointsTo(v.L, v.mem, Heap(x), y)
      ensures y in v.marked
    {
      QuietPointer(v, Heap(x), y);
    }
  }

  lemma ClosedIsQuiet(v: View)
    requires Shape(v) && v.extra == {} && v.st == [] && v.hand == Nothing && v.dirty == {} && v.rootsDirty == {}
    requires PointerClosed(v.L, v.mem, v.marked)
    ensures QuietView(v)
  {
    forall a, k | a in v.mem && Due(v, a) && 0 <= k < |v.mem[a]| ensures Settled(v, a, k) {
      if v.mem[a][k] in v.L.resolve {
        var o := v.L.resolve[v.mem[a][k]];
        ResolveInBlock(v.L, v.mem[a][k]);
        assert PointsTo(v.L, v.mem, a, o);
        if !a.Heap? { assert o in RootTargets(v.L, v.mem); }
      }
    }
  }

  datatype Outcome = More | Done | Abort

  // The termination measure of marking, compared lexicographically.
  datatype Measure = Measure(unmarked: nat, rank: nat, blocksLeft: nat, work: nat)

  predicate Less(a: Measure, b: Measure) {
    || a.unmarked < b.unmarked
    || (a.unmarked == b.unmarked && (a.rank < b.rank
        || (a.rank == b.rank && (a.blocksLeft < b.blocksLeft
            || (a.blocksLeft == b.blocksLeft && a.work < b.work)))))
  }

  lemma IsLess(l: Measure, l0: Measure)
    requires Less(l, l0)
    ensures || l.unmarked < l0.unmarked
            || (l.unmarked == l0.unmarked
                && (l.rank < l0.rank
                    || (l.rank == l0.rank
                        && (l.blocksLeft < l0.blocksLeft || (l.blocksLeft == l0.blocksLeft && l.work < l0.work)))))
  {
  }

  lemma LessTrans(a: Measure, b: Measure, c: Measure)
    requires Less(a, b) && Less(b, c)
    ensures Less(a, c)
  {
  }

  lemma FewerUnmarked(all: set<Obj>, m1: set<Obj>, m2: set<Obj>)
    requires m1 <= m2 <= all
    ensures |all - m2| <= |all - m1|
    ensures m1 != m2 ==> |all - m2| < |all - m1|
  {
    assert all - m1 == (all - m2) + (m2 - m1);
    if m1 != m2 {
      var x :| x in m2 - m1;
    }
  }

  lemma OneMore(all: set<Obj>, m: set<Obj>, o: Obj)
    requires o in all && o !in m
    ensures |all - (m + {o})| == |all - m| - 1
  {
    assert all - m == (all - (m + {o})) + {o};
  }

  // A complete scan followed by a complete push of the roots establishes the invariant of MS_ROOTS_PUSHED.
  lemma ScanComplete(v: View, m: MarkState)
    requires Inv(v, m, |v.L.blocks|, v.L.statics + 1) && m != MS_INVALID
    ensures Inv(v, MS_ROOTS_PUSHED, 0, v.L.statics + 1)
  {
    forall a, k | a in v.mem && Due(v, a) && !Exempt(v, MS_ROOTS_PUSHED, 0, v.L.statics + 1, a) && 0 <= k < |v.mem[a]|
      ensures Settled(v, a, k)
    {
      assert !Exempt(v, m, |v.L.blocks|, v.L.statics + 1, a);
    }
  }

  lemma RootsPushedToNone(v: View)
    requires Inv(v, MS_ROOTS_PUSHED, 0, v.L.statics + 1)
    ensures Inv(v, MS_NONE, 0, v.L.statics + 1)
  {
    forall a, k | a in v.mem && Due(v, a) && !Exempt(v, MS_NONE, 0, v.L.statics + 1, a) && 0 <= k < |v.mem[a]|
      ensures Settled(v, a, k)
    {
      assert !Exempt(v, MS_ROOTS_PUSHED, 0, v.L.statics + 1, a);
    }
  }

  lemma InvShape(v: View, m: MarkState, pos: nat, roots: nat)
    requires Inv(v, m, pos, roots)
    ensures Shape(v) && v.marked <= v.L.block.Keys
  {
  }

  // In MS_INVALID nothing is promised.
  lemma InvalidInv(v: View, pos: nat, roots: nat)
    requires Shape(v)
    ensures Inv(v, MS_INVALID, pos, roots)
  {
  }

  // Every mark state can be entered from MS_INVALID at the start of a scan.
  lemma ScanStart(v: View, m: MarkState)
    requires Shape(v) && v.extra == {}
    requires m == MS_PUSH_UNCOLLECTABLE ==> forall o <- v.marked :: v.L.IsUncollectable(o)
    requires m in {MS_INVALID, MS_PARTIALLY_INVALID, MS_PUSH_UNCOLLECTABLE}
    ensures Inv(v, m, 0, 0)
  {
  }

  // A write leaves the invariant alone: the area written is exempt from now on.
  lemma WriteInv(v: View, w: View, m: MarkState, pos: nat, roots: nat, a: Area)
    requires Inv(v, m, pos, roots) && Shape(w)
    requires w == v.(mem := w.mem, dirty := w.dirty, rootsDirty := w.rootsDirty)
    requires a in v.mem && forall b <- v.mem :: b != a ==> w.mem[b] == v.mem[b]
    requires v.dirty <= w.dirty && v.rootsDirty <= w.rootsDirty
    requires m == MS_INVALID || (if a.Heap? then a.o in v.L.block && v.L.block[a.o] in w.dirty else a in w.rootsDirty)
    ensures Inv(w, m, pos, roots)
  {
    forall b, k | b in w.mem && Due(w, b) && !Exempt(w, m, pos, roots, b) && 0 <= k < |w.mem[b]|
      ensures Settled(w, b, k)
    {
      assert b != a && Due(v, b) && !Exempt(v, m, pos, roots, b);
      assert Settled(v, b, k);
    }
  }

  // A mutator write as the collector sees it.
  ghost function Written(v: View, a: Area, k: nat, x: Word, incremental: bool): View
    requires a in v.mem && k < |v.mem[a]| && (a.Heap? ==> a.o in v.L.block)
  {
    v.(mem := v.mem[a := v.mem[a][k := x]],
       dirty := if incremental && a.Heap? then v.dirty + {v.L.block[a.o]} else v.dirty,
       rootsDirty := if a.Heap? then v.rootsDirty else v.rootsDirty + {a})
  }

  lemma IsWritten(v: View, a: Area, k: nat, x: Word, incremental: bool, w: View)
    requires a in v.mem && k < |v.mem[a]| && (a.Heap? ==> a.o in v.L.block)
    requires w == v.(mem := w.mem, dirty := w.dirty, rootsDirty := w.rootsDirty)
    requires w.mem == v.mem[a := v.mem[a][k := x]]
    requires w.dirty == if incremental && a.Heap? then v.dirty + {v.L.block[a.o]} else v.dirty
    requires w.rootsDirty == if a.Heap? then v.rootsDirty else v.rootsDirty + {a}
    ensures w == Written(v, a, k, x, incremental)
  {
  }

  lemma WrittenInv(v: View, a: Area, k: nat, x: Word, incremental: bool, m: MarkState, pos: nat, roots: nat)
    requires Shape(v) && a in v.mem && k < |v.mem[a]| && (a.Heap? ==> a.o in v.L.block)
    requires incremental ==> Inv(v, m, pos, roots)
    ensures Shape(Written(v, a, k, x, incremental))
    ensures incremental ==> Inv(Written(v, a, k, x, incremental), m, pos, roots)
  {
    var w := Written(v, a, k, x, incremental);
    if incremental {
      WriteInv(v, w, m, pos, roots, a);
    }
  }

  // Reading the dirty bits turns the exemption of dirty blocks into that of grungy blocks still to be scanned.
  lemma RescuersInv(v: View, w: View)
    requires Inv(v, MS_NONE, 0, v.L.statics + 1) && v.extra == {}
    requires w == v.(dirty := {}, grungy := v.dirty, rootsDirty := {})
    ensures Inv(w, MS_PUSH_RESCUERS, 0, 0)
  {
    forall a, k | a in w.mem && Due(w, a) && !Exempt(w, MS_PUSH_RESCUERS, 0, 0, a) && 0 <= k < |w.mem[a]|
      ensures Settled(w, a, k)
    {
      assert !Exempt(v, MS_NONE, 0, v.L.statics + 1, a);
      assert Settled(v, a, k);
    }
  }

  /****** room for the roots ******/

  // How high a mark stack of len entries, d of them used, gets when a root segment is pushed: as one entry, or page by
  // page until the stack is nearly full and then the rest as one.
  function SegmentDepth(words: nat, off: nat, d: nat, len: nat, all: bool): (r: nat)
    requires off < HBLK_WORDS
    ensures if words == 0 then r == d else r > d
  {
    var head := HBLK_WORDS - off;
    if words == 0 then d
    else if all || words <= head then d + 1
    else
      var pages, full := (words - head) / HBLK_WORDS, 3 * len / 4 + 2;
      if pages == 0 || d + 1 + pages <= full then d + 1 + pages + (if (words - head) % HBLK_WORDS > 0 then 1 else 0)
      else (if d + 1 < full then full else d + 1) + 1
  }

  lemma OnePiece(words: nat, off: nat, d: nat, len: nat)
    requires off < HBLK_WORDS && words <= HBLK_WORDS - off
    ensures SegmentDepth(words, off, d, len, false) == if words == 0 then d else d + 1
  {
  }

  lemma OverFirst(words: nat, off: nat, d: nat, len: nat)
    requires off < HBLK_WORDS && words > HBLK_WORDS - off
    ensures SegmentDepth(words, off, d, len, false) > d
  {
  }

  // How many whole pages there are.
  lemma WholePages(n: int, j: nat)
    requires j * HBLK_WORDS <= n
    ensures j <= n / HBLK_WORDS
    ensures n < (j + 1) * HBLK_WORDS ==> n / HBLK_WORDS == j && n % HBLK_WORDS == n - j * HBLK_WORDS
  {
  }

  lemma NearlyFull(words: nat, off: nat, d: nat, len: nat, j: nat)
    requires off < HBLK_WORDS && HBLK_WORDS - off + (j + 1) * HBLK_WORDS <= words
    requires d + j > 3 * len / 4 && (j > 0 ==> d + 1 + j <= 3 * len / 4 + 2)
    ensures SegmentDepth(words, off, d, len, false) == d + 1 + j + 1
  {
    WholePages(words - (HBLK_WORDS - off), j + 1);
  }

  lemma LastPage(words: nat, off: nat, d: nat, len: nat, j: nat)
    requires off < HBLK_WORDS && words > HBLK_WORDS - off
    requires 0 <= words - (HBLK_WORDS - off + j * HBLK_WORDS) < HBLK_WORDS
    requires j > 0 ==> d + 1 + j <= 3 * len / 4 + 2
    ensures SegmentDepth(words, off, d, len, false)
         == d + 1 + j + if words > HBLK_WORDS - off + j * HBLK_WORDS then 1 else 0
  {
    WholePages(words - (HBLK_WORDS - off), j);
  }

  function SegmentWords(L: Layout, i: nat): nat {
    if Static(i) in L.words then L.words[Static(i)] else 0
  }

  function SegmentOffset(L: Layout, i: nat): (off: nat)
    ensures off < HBLK_WORDS
  {
    if i < |L.offset| && L.offset[i] < HBLK_WORDS then L.offset[i] else 0
  }

  // The same for the first n segments.
  function RootsDepth(L: Layout, n: nat, d: nat, len: nat, all: bool): (r: nat) {
    if n == 0 then d
    else SegmentDepth(SegmentWords(L, n - 1), SegmentOffset(L, n - 1), RootsDepth(L, n - 1, d, len, all), len, all)
  }

  // How many of them are not empty.
  function RootCount(L: Layout, n: nat): nat {
    if n == 0 then 0 else RootCount(L, n - 1) + if SegmentWords(L, n - 1) > 0 then 1 else 0
  }

  lemma {:induction false} DepthGrows(L: Layout, i: nat, n: nat, d: nat, len: nat, all: bool)
    requires i <= n
    ensures RootsDepth(L, i, d, len, all) <= RootsDepth(L, n, d, len, all)
  {
    if i < n { DepthGrows(L, i, n - 1, d, len, all); }
  }

  // Every segment that is not empty needs an entry.
  lemma {:induction false} AnEntryEach(L: Layout, n: nat, d: nat, len: nat, all: bool)
    ensures RootsDepth(L, n, d, len, all) >= d + RootCount(L, n)
  {
    if n > 0 { AnEntryEach(L, n - 1, d, len, all); }
  }

  // One entry is enough where segments are pushed as a whole.
  lemma {:induction false} OneEntryEach(L: Layout, n: nat, d: nat, len: nat)
    ensures RootsDepth(L, n, d, len, true) == d + RootCount(L, n)
  {
    if n > 0 { OneEntryEach(L, n - 1, d, len); }
  }

  // Beyond three quarters of the stack two are enough where they are pushed page by page.
  lemma {:induction false} TwoEntriesEach(L: Layout, n: nat, d: nat, len: nat)
    ensures RootsDepth(L, n, d, len, false)
         <= (if d <= 3 * len / 4 + 1 then 3 * len / 4 + 1 else d) + 2 * RootCount(L, n)
  {
    if n > 0 { TwoEntriesEach(L, n - 1, d, len); }
  }

  class Marker {
    const L: Layout
    const incremental: bool        // dirty bits are maintained
    var mem: map<Area, seq<Word>>
    var marked: set<Obj>
    var state: MarkState
    var stack: array<Entry>
    var depth: nat                 // index of the top entry, plus one
    var tooSmall: bool
    var scan: nat                  // scan_ptr as a block number; 0 is the null pointer
    var objectsAreMarked: bool
    var dirty: set<nat>            // blocks written since the dirty bits were last read
    var grungy: set<nat>           // blocks found dirty then
    ghost var rootsDirty: set<Area>
    ghost var extra: set<Obj>

    ghost function St(): seq<Entry>
      reads `stack, `depth, stack
    {
      if depth <= stack.Length then stack[..depth] else []
    }

    ghost function V(h: Hand): View
      reads this, stack
    {
      View(L, mem, marked, St(), h, dirty, grungy, rootsDirty, extra)
    }

    ghost predicate I(h: Hand, pos: nat, roots: nat)
      reads this, stack
    {
      depth <= stack.Length && stack.Length >= INITIAL_MARK_STACK_SIZE && Shape(V(h)) && marked <= L.block.Keys
      && Inv(V(h), state, pos, roots)
    }

    // Nothing is unmarked; as long as nothing new is marked, the stack and the mark state stay put.
    twostate predicate Grew()
      reads this, stack
    {
      && depth <= stack.Length && old(depth <= stack.Length)
      && old(marked) <= marked
      && (marked == old(marked) ==> state == old(state) && St() == old(St()))
      && (state == old(state) || state == MS_INVALID) && Overflow()
      && (old(Ample()) ==> Ample() && state == old(state))
      && mem == old(mem) && dirty == old(dirty) && rootsDirty == old(rootsDirty) && extra == old(extra)
    }

    // An overflow of the stack makes the mark state invalid and a larger stack wanted.
    twostate predicate Overflow()
      reads `state, `tooSmall
    {
      && (old(tooSmall) ==> tooSmall) && (tooSmall && !old(tooSmall) ==> state == MS_INVALID)
      && (state == MS_INVALID && old(state) != MS_INVALID ==> tooSmall)
    }

    // The stack has room for every object still unmarked.
    ghost predicate Ample()
      reads `marked, `depth, `stack
    {
      depth + |L.block.Keys - marked| <= stack.Length
    }

    // PUSH_OBJ; on overflow the top entries are discarded and the mark state is invalidated
    // (GC_signal_mark_stack_overflow).
    method PushEntry(e: Entry)
      requires depth <= stack.Length && stack.Length >= INITIAL_MARK_STACK_SIZE
      modifies `depth, `state, `tooSmall, stack
      ensures 0 < depth <= stack.Length
      ensures St() == Pushed(old(St()), e, stack.Length)
      ensures if old(depth) < stack.Length then state == old(state) && tooSmall == old(tooSmall) &&
                depth == old(depth) + 1
              else state == MS_INVALID && tooSmall
    {
      var top := depth;
      if top >= stack.Length {
        state := MS_INVALID;
        tooSmall := true;
        top := top - GC_MARK_STACK_DISCARDS;
      }
      stack[top] := e;
      depth := top + 1;
    }

    // PUSH_CONTENTS: if w is a pointer to an unmarked object, mark that object and push it.
    method MarkAndPush(w: Word, ghost h: Hand, ghost pos: nat, ghost roots: nat, ghost bound: set<Obj>)
      requires I(h, pos, roots)
      modifies `marked, `depth, `state, `tooSmall, stack
      ensures I(h, pos, roots)
      ensures Grew() && (state != old(state) || old(depth) > 0 ==> depth > 0)
      ensures w in L.resolve ==> L.resolve[w] in marked
      ensures PushedAll(L, old(marked), old(depth), marked, depth, state)
      ensures old(Within(V(h), bound)) && (w in L.resolve ==> L.resolve[w] in bound) ==> Within(V(h), bound)
    {
      hide Inv, Within, Layout.WellFormed, Shape, Layout.HasDescr, Ample;
      if w in L.resolve && L.resolve[w] !in marked {
        PointerIn(w, h, pos, roots);
        Mark(L.resolve[w], h, pos, roots, bound);
        assert Heavy(L, marked) - old(marked) == if L.HasDescr(L.resolve[w]) then {L.resolve[w]} else {};
      } else {
        assert Heavy(L, marked) - old(marked) == {};
      }
    }

    lemma PointerIn(w: Word, h: Hand, pos: nat, roots: nat)
      requires I(h, pos, roots) && w in L.resolve
      ensures L.resolve[w] in L.block
    {
      hide Inv;
    }

    // Mark an object and, unless it has no pointers, push it.
    method Mark(o: Obj, ghost h: Hand, ghost pos: nat, ghost roots: nat, ghost bound: set<Obj>)
      requires I(h, pos, roots) && o in L.block && o !in marked
      modifies `marked, `depth, `state, `tooSmall, stack
      ensures I(h, pos, roots)
      ensures Grew() && marked == old(marked) + {o} && (state != old(state) || old(depth) > 0 ==> depth > 0)
      ensures state == MS_INVALID || depth == old(depth) + if L.HasDescr(o) then 1 else 0
      ensures old(Within(V(h), bound)) && o in bound ==> Within(V(h), bound)
    {
      hide Inv, Shape, Within, Layout.WellFormed, Pushed, Layout.HasDescr;
      OneMore(L.block.Keys, marked, o);
      if L.HasDescr(o) {
        MarkAll(o, h, pos, roots, bound);
      } else {
        MarkLeaf(o, h, pos, roots, bound);
      }
      assert o in marked && o !in old(marked);
    }

    method MarkLeaf(o: Obj, ghost h: Hand, ghost pos: nat, ghost roots: nat, ghost bound: set<Obj>)
      requires I(h, pos, roots) && o in L.block && !L.HasDescr(o)
      modifies `marked
      ensures I(h, pos, roots) && marked == old(marked) + {o}
      ensures old(Within(V(h), bound)) && o in bound ==> Within(V(h), bound)
    {
      hide Within, Layout.WellFormed, Settled, Exempt, Layout.HasDescr, ValidEntry;
      ghost var v := V(h);
      InvMarkLeaf(v, state, pos, roots, o);
      WithinMark(v, v.(marked := v.marked + {o}), bound, o);
      marked := marked + {o};
      assert V(h) == v.(marked := marked);
    }

    method MarkAll(o: Obj, ghost h: Hand, ghost pos: nat, ghost roots: nat, ghost bound: set<Obj>)
      requires I(h, pos, roots) && o in L.block && L.HasDescr(o)
      modifies `marked, `depth, `state, `tooSmall, stack
      ensures I(h, pos, roots) && depth > 0
      ensures marked == old(marked) + {o}
      ensures if old(depth) < stack.Length then state == old(state) && depth == old(depth) + 1 else state == MS_INVALID
      ensures Overflow()
      ensures old(Within(V(h), bound)) && o in bound ==> Within(V(h), bound)
    {
      hide Inv, Within, Layout.WellFormed, Shape, Layout.HasDescr, Pushed;
      ghost var v := V(h);
      MarkPushedInv(v, state, pos, roots, bound, o, stack.Length);
      marked := marked + {o};
      PushEntry(Entry(Heap(o), 0, L.words[Heap(o)]));
      assert V(h) == MarkPushed(v, o, stack.Length);
    }

    // Consider word k of the area in hand; afterwards h2 is what is left in the hand.
    method ScanWord(a: Area, k: nat, ghost h: Hand, ghost h2: Hand, ghost pos: nat, ghost roots: nat,
                    ghost bound: set<Obj>)
      requires I(h, pos, roots)
      requires a in L.words && k < L.words[a] && h.Hand? && h.area == a
      requires h2.Hand? ==> h2.area == a
      requires forall j :: 0 <= j < L.words[a] && InHand(h, a, j) ==> j == k || InHand(h2, a, j)
      modifies `marked, `depth, `state, `tooSmall, stack
      ensures I(h2, pos, roots)
      ensures Grew()
      ensures old(Within(V(h), bound)) ==> Within(V(h2), bound)
    {
      hide Inv, Within, Layout.WellFormed, Shape, PushedAll, Ample, InHand;
      WordIs(a, k, h, pos, roots, bound);
      var w := mem[a][k];
      if L.Plausible(w) {
        MarkAndPush(w, h, pos, roots, bound);
      }
      assert V(h2) == V(h).(hand := h2);
      OnlyWord(a, k, h, h2);
      ShrinkHand(V(h), state, pos, roots, bound, h2);
    }

    // A word is there to be looked at, and if it is a pointer it looks like one.
    lemma WordIs(a: Area, k: nat, h: Hand, pos: nat, roots: nat, bound: set<Obj>)
      requires I(h, pos, roots) && a in L.words && k < L.words[a] && h.Hand? && h.area == a
      ensures a in mem && k < |mem[a]| && |mem[a]| == L.words[a]
      ensures mem[a][k] in L.resolve ==> L.Plausible(mem[a][k])
      ensures Within(V(h), bound) && mem[a][k] in L.resolve ==> L.resolve[mem[a][k]] in bound
    {
    }

    lemma OnlyWord(a: Area, k: nat, h: Hand, h2: Hand)
      requires a in mem && k < |mem[a]| && h.Hand? && h.area == a && (h2.Hand? ==> h2.area == a)
      requires forall j :: 0 <= j < |mem[a]| && InHand(h, a, j) ==> j == k || InHand(h2, a, j)
      requires mem[a][k] in L.resolve ==> L.resolve[mem[a][k]] in marked
      ensures forall j :: 0 <= j < |mem[a]| && InHand(h, a, j) ==>
                InHand(h2, a, j) || mem[a][j] !in L.resolve || L.resolve[mem[a][j]] in marked
    {
      hide InHand;
    }

    // The first loop of the range scan: from the end, look for a word worth putting off.
    // No word above the one found is a pointer.
    method FindDeferred(ws: seq<Word>, lo: nat, hi: nat) returns (found: bool, d: int)
      requires lo < hi <= |ws| && L.WellFormed()
      ensures found ==> lo <= d < hi && L.Plausible(ws[d])
      ensures !found ==> d == lo - 1
      ensures forall k :: d < k < hi ==> ws[k] !in L.resolve
    {
      d := hi - 1;
      while d >= lo
        invariant lo - 1 <= d < hi
        invariant forall k :: d < k < hi ==> ws[k] !in L.resolve
      {
        if L.Plausible(ws[d]) {
          return true, d;
        }
        d := d - 1;
      }
      found := false;
    }

    lemma WordsOf(a: Area, h: Hand, pos: nat, roots: nat)
      requires I(h, pos, roots) && a in L.words
      ensures L.WellFormed() && a in mem && |mem[a]| == L.words[a]
    {
      hide Inv;
    }

    // The scanning loop of GC_mark_from over the words lo..hi of an area: starting at the end, it
    // finds a plausible word to put off, then works upwards, and comes to that word last.
    method ScanRange(a: Area, lo: nat, hi: nat, ghost pos: nat, ghost roots: nat, ghost bound: set<Obj>)
      requires a in L.words && lo < hi <= L.words[a]
      requires I(Hand(a, lo, hi, -1), pos, roots)
      modifies `marked, `depth, `state, `tooSmall, stack
      ensures I(Nothing, pos, roots)
      ensures Grew()
      ensures old(Within(V(Hand(a, lo, hi, -1)), bound)) ==> Within(V(Nothing), bound)
    {
      hide Inv, Within, Shape, Layout.WellFormed, Ample, InHand, ValidEntry;
      WordsOf(a, Hand(a, lo, hi, -1), pos, roots);
      var found, d := FindDeferred(mem[a], lo, hi);
      PutOff(a, lo, hi, if found then Hand(a, lo, d, d) else Nothing, d, pos, roots, bound);
      if found {
        ScanUpwards(a, lo, d, pos, roots, bound);
      }
    }

    // Nothing above word d of the range is a pointer, so h is enough to have in hand.
    lemma PutOff(a: Area, lo: nat, hi: nat, h: Hand, d: int, pos: nat, roots: nat, bound: set<Obj>)
      requires a in L.words && lo < hi <= L.words[a] && a in mem && |mem[a]| == L.words[a] && d >= lo - 1
      requires I(Hand(a, lo, hi, -1), pos, roots) && forall k :: d < k < hi ==> mem[a][k] !in L.resolve
      requires if d >= lo then h == Hand(a, lo, d, d) else h == Nothing
      ensures I(h, pos, roots) && depth <= stack.Length
      ensures Within(V(Hand(a, lo, hi, -1)), bound) ==> Within(V(h), bound)
    {
      hide Inv, Within, Layout.WellFormed;
      assert V(h) == V(Hand(a, lo, hi, -1)).(hand := h);
      ShrinkHand(V(Hand(a, lo, hi, -1)), state, pos, roots, bound, h);
    }

    // The upward part of that loop; d is the word that was put off.
    method ScanUpwards(a: Area, lo: nat, d: nat, ghost pos: nat, ghost roots: nat, ghost bound: set<Obj>)
      requires a in L.words && lo <= d < L.words[a]
      requires I(Hand(a, lo, d, d), pos, roots)
      modifies `marked, `depth, `state, `tooSmall, stack
      ensures I(Nothing, pos, roots)
      ensures Grew()
      ensures old(Within(V(Hand(a, lo, d, d)), bound)) ==> Within(V(Nothing), bound)
    {
      hide Inv, Within, Layout.WellFormed, Shape, Ample;
      var cur: nat := lo;
      while cur < d
        invariant lo <= cur <= d
        invariant I(Hand(a, cur, d, d), pos, roots)
        invariant Grew()
        invariant old(Within(V(Hand(a, lo, d, d)), bound)) ==> Within(V(Hand(a, cur, d, d)), bound)
      {
        ScanWord(a, cur, Hand(a, cur, d, d), Hand(a, cur + 1, d, d), pos, roots, bound);
        cur := cur + 1;
      }
      ScanWord(a, d, Hand(a, cur, d, d), Nothing, pos, roots, bound);
    }

    // How many words of an entry are scanned at once.
    function Chunk(e: Entry): nat {
      if e.lo >= e.hi then 0 else if e.hi - e.lo < SPLIT_RANGE_WORDS then e.hi - e.lo else SPLIT_RANGE_WORDS - 1
    }

    lemma ChunkFits()
      ensures forall e :: Chunk(e) < SPLIT_RANGE_WORDS
    {
    }

    // One round of GC_mark_from's loop: take the top entry, or its first 127 words if it is long,
    // and scan it.  Returns the number of bytes scanned.
    method MarkTop(ghost pos: nat, ghost roots: nat, ghost bound: set<Obj>) returns (bytes: nat)
      requires I(Nothing, pos, roots) && depth > 0
      modifies `marked, `depth, `state, `tooSmall, stack
      ensures I(Nothing, pos, roots) && bytes == WORD_BYTES * Chunk(old(stack[depth - 1])) > 0
      ensures old(marked) <= marked && Overflow()
      ensures marked == old(marked) ==> state == old(state) && Work(St()) < Work(old(St()))
      ensures state == old(state) || state == MS_INVALID
      ensures old(Ample()) ==> Ample() && state == old(state)
      ensures old(Within(V(Nothing), bound)) ==> Within(V(Nothing), bound)
    {
      hide Inv, Within, Shape, Layout.WellFormed, Work;
      var e, limit := TakeTopRange(pos, roots, bound);
      ScanRange(e.area, e.lo, limit, pos, roots, bound);
      bytes := (limit - e.lo) * WORD_BYTES;
    }

    method TakeTopRange(ghost pos: nat, ghost roots: nat, ghost bound: set<Obj>) returns (e: Entry, limit: nat)
      requires I(Nothing, pos, roots) && depth > 0
      modifies `depth, stack
      ensures e.area in L.words && e.lo < limit <= e.hi <= L.words[e.area]
      ensures e == old(stack[depth - 1]) && limit == e.lo + Chunk(e)
      ensures I(Hand(e.area, e.lo, limit, -1), pos, roots)
      ensures Work(St()) < Work(old(St())) && depth <= old(depth)
      ensures old(Within(V(Nothing), bound)) ==> Within(V(Hand(e.area, e.lo, limit, -1)), bound)
    {
      ghost var v := V(Nothing);
      e := stack[depth - 1];
      assert e == v.st[|v.st| - 1] && ValidEntry(L, e);
      hide Inv, Within, Shape, Layout.WellFormed, Work, ValidEntry, MayScan, OnStack;
      limit := e.hi;
      if e.hi - e.lo >= SPLIT_RANGE_WORDS {
        limit := e.lo + SPLIT_RANGE_WORDS - 1;
        stack[depth - 1] := Entry(e.area, limit, e.hi);
        assert St() == v.st[..|v.st| - 1] + [Entry(e.area, limit, e.hi)];
      } else {
        depth := depth - 1;
        assert St() == v.st[..|v.st| - 1];
      }
      assert St() == TakeTop(v, limit).st;
      TakeTopInv(v, state, pos, roots, bound, limit);
      assert Shape(TakeTop(v, limit)) by {
        InvShape(TakeTop(v, limit), state, pos, roots);
      }
      assert V(Hand(e.area, e.lo, limit, -1)) == TakeTop(v, limit);
    }

    // GC_mark_from on the global stack: mark until the stack is empty or more than a block's worth of memory was seen.
    method MarkFrom(ghost pos: nat, ghost roots: nat, ghost bound: set<Obj>) returns (ghost seen: nat)
      requires I(Nothing, pos, roots)
      modifies `marked, `depth, `state, `tooSmall, `objectsAreMarked, stack
      ensures I(Nothing, pos, roots) && objectsAreMarked
      ensures depth == 0 || seen > HBLKSIZE
      ensures seen < HBLKSIZE + WORD_BYTES * SPLIT_RANGE_WORDS && (old(depth) > 0 ==> seen > 0)
      ensures old(marked) <= marked && Overflow()
      ensures marked == old(marked) ==> state == old(state) && (old(depth) > 0 ==> Work(St()) < Work(old(St())))
      ensures state == old(state) || state == MS_INVALID
      ensures old(Ample()) ==> Ample() && state == old(state)
      ensures old(Within(V(Nothing), bound)) ==> Within(V(Nothing), bound)
    {
      hide Inv, Within, Layout.WellFormed, Shape, Ample, Chunk;
      ChunkFits();
      var credit: int := HBLKSIZE;
      objectsAreMarked := true;
      while depth > 0 && credit >= 0
        invariant I(Nothing, pos, roots) && objectsAreMarked
        invariant old(marked) <= marked && Overflow()
        invariant credit + WORD_BYTES * SPLIT_RANGE_WORDS > 0 && (credit == HBLKSIZE ==> depth == old(depth))
        invariant credit == HBLKSIZE ==> marked == old(marked) && state == old(state) && St() == old(St())
        invariant credit <= HBLKSIZE
        invariant marked == old(marked) && credit < HBLKSIZE ==> state == old(state) && Work(St()) < Work(old(St()))
        invariant state == old(state) || state == MS_INVALID
        invariant old(Ample()) ==> Ample() && state == old(state)
        invariant old(Within(V(Nothing), bound)) ==> Within(V(Nothing), bound)
        decreases credit
      {
        var bytes := MarkTop(pos, roots, bound);
        credit := credit - bytes;
      }
      seen := HBLKSIZE - credit;
    }

    // GC_push_marked: push every marked object of block b.
    method PushMarked(b: nat, ghost roots: nat, ghost bound: set<Obj>)
      requires I(Nothing, b, roots)
      requires b < |L.blocks| && L.blocks[b].Used? && depth + |L.blocks[b].objs| <= stack.Length
      modifies `depth, `state, `tooSmall, `objectsAreMarked, stack
      ensures I(Nothing, b + 1, roots) && state == old(state) && tooSmall == old(tooSmall)
      ensures objectsAreMarked ==
              (old(objectsAreMarked) || (L.blocks[b].kind.HasDescr() && exists o <- L.blocks[b].objs :: o in marked))
      ensures old(Within(V(Nothing), bound)) ==> Within(V(Nothing), bound)
    {
      var objs := L.blocks[b].objs;
      if !L.blocks[b].kind.HasDescr() || forall o <- objs :: o !in marked {
        AdvancePos(V(Nothing), state, b, roots);
        return;
      }
      objectsAreMarked := true;
      PushObjects(objs, b, roots, bound);
      AdvancePos(V(Nothing), state, b, roots);
    }

    method PushObjects(objs: seq<Obj>, ghost pos: nat, ghost roots: nat, ghost bound: set<Obj>)
      requires I(Nothing, pos, roots) && depth + |objs| <= stack.Length
      requires forall o <- objs :: o in L.block && L.HasDescr(o)
      modifies `depth, `state, `tooSmall, stack
      ensures I(Nothing, pos, roots) && state == old(state) && tooSmall == old(tooSmall)
      ensures forall o <- objs :: o in marked ==> Pending(L, St(), o)
      ensures old(Within(V(Nothing), bound)) ==> Within(V(Nothing), bound)
    {
      hide Inv, Within, Shape, Pending;
      for i := 0 to |objs|
        invariant I(Nothing, pos, roots) && state == old(state) && tooSmall == old(tooSmall)
        invariant depth <= old(depth) + i
        invariant forall j :: 0 <= j < i && objs[j] in marked ==> Pending(L, St(), objs[j])
        invariant old(Within(V(Nothing), bound)) ==> Within(V(Nothing), bound)
      {
        if objs[i] in marked {
          PushObject(objs[i], pos, roots, bound);
        }
      }
    }

    method PushObject(o: Obj, ghost pos: nat, ghost roots: nat, ghost bound: set<Obj>)
      requires I(Nothing, pos, roots) && depth < stack.Length
      requires o in marked && o in L.block && L.HasDescr(o)
      modifies `depth, `state, `tooSmall, stack
      ensures I(Nothing, pos, roots) && state == old(state) && tooSmall == old(tooSmall) && depth == old(depth) + 1
      ensures Pending(L, St(), o)
      ensures forall x :: old(Pending(L, St(), x)) ==> Pending(L, St(), x)
      ensures old(Within(V(Nothing), bound)) ==> Within(V(Nothing), bound)
    {
      ghost var v := V(Nothing);
      assert Heap(o) in L.words by {
        assert L.IsArea(Heap(o));
      }
      InvPush(v, state, pos, roots, bound, o);
      hide Inv, Within, Layout.WellFormed, OnStack;
      PushEntry(Entry(Heap(o), 0, L.words[Heap(o)]));
      assert V(Nothing) == v.(st := v.st + [Entry(Heap(o), 0, L.words[Heap(o)])]);
    }

    // The scan of the given phase has come to its end.
    ghost predicate NoneWanted(from: nat, m: MarkState)
      reads `grungy
    {
      forall b :: from <= b < |L.blocks| ==> !Wanted(b, L.blocks[b], m, grungy)
    }

    // GC_push_next_marked and its two variants: skip to the next block the present scan wants and
    // push its marked objects.  Returns the place to go on from, or 0 at the end of the heap.
    method PushNext(from: nat, ghost roots: nat, ghost bound: set<Obj>) returns (next: nat)
      requires I(Nothing, from, roots) && depth + INITIAL_MARK_STACK_SIZE / 2 <= stack.Length
      modifies `depth, `state, `tooSmall, `objectsAreMarked, stack
      ensures state == old(state) && tooSmall == old(tooSmall)
      ensures next == 0 ==> I(Nothing, if from <= |L.blocks| then |L.blocks| else from, roots)
      ensures next > 0 ==> from < next <= |L.blocks| && I(Nothing, next, roots)
      ensures old(objectsAreMarked) ==> objectsAreMarked
      ensures next == 0 ==> objectsAreMarked == old(objectsAreMarked) && St() == old(St()) && depth == old(depth)
      ensures next == 0 <==> NoneWanted(from, state)
      ensures old(Within(V(Nothing), bound)) ==> Within(V(Nothing), bound)
    {
      assert L.WellFormed();
      hide Inv, Within, Layout.WellFormed, Wanted;
      var b := from;
      while b < |L.blocks| && !Wanted(b, L.blocks[b], state, grungy)
        invariant from <= b && (from <= |L.blocks| ==> b <= |L.blocks|)
        invariant forall c :: from <= c < b && c < |L.blocks| ==> !Wanted(c, L.blocks[c], state, grungy)
        invariant I(Nothing, b, roots)
        modifies {}
      {
        AdvancePos(V(Nothing), state, b, roots);
        b := b + 1;
      }
      if b >= |L.blocks| {
        return 0;
      }
      PushMarked(b, roots, bound);
      return b + 1;
    }

    // GC_push_all: push one range; without room the collector aborts.
    method PushAll(a: Area, lo: nat, hi: nat, ghost pos: nat, ghost roots: nat, ghost bound: set<Obj>)
      returns (ok: bool)
      requires a in L.words && lo <= hi <= L.words[a]
      requires I(Hand(a, lo, L.words[a], -1), pos, roots)
      modifies `depth, stack
      ensures ok <==> lo == hi || old(depth) < stack.Length
      ensures ok ==> I(Hand(a, hi, L.words[a], -1), pos, roots)
      ensures depth == old(depth) + if ok && lo < hi then 1 else 0
      ensures ok && old(Within(V(Hand(a, lo, L.words[a], -1)), bound)) ==> Within(V(Hand(a, hi, L.words[a], -1)), bound)
    {
      if lo >= hi {
        return true;
      }
      if depth >= stack.Length {
        return false;
      }
      ghost var v := V(Hand(a, lo, L.words[a], -1));
      stack[depth] := Entry(a, lo, hi);
      depth := depth + 1;
      assert V(Hand(a, hi, L.words[a], -1)) == v.(st := v.st + [Entry(a, lo, hi)], hand := v.hand.(lo := hi));
      PushPiece(v, state, pos, roots, bound, hi);
      return true;
    }

    lemma HasRoom(h: Hand, pos: nat, roots: nat)
      requires I(h, pos, roots)
      ensures depth <= stack.Length && 3 * stack.Length / 4 + 1 < stack.Length
    {
      hide Inv, Shape;
    }

    // GC_push_selected on a root segment.  Its pages have no header, so GC_page_was_dirty holds of
    // every one of them, and the segment is pushed page by page while the stack is not nearly full.
    method PushSelected(i: nat, ghost pos: nat, ghost roots: nat, ghost bound: set<Obj>) returns (ok: bool)
      requires i < L.statics && Static(i) in L.words && i < |L.offset| && L.offset[i] < HBLK_WORDS
      requires I(Hand(Static(i), 0, L.words[Static(i)], -1), pos, roots)
      modifies `depth, stack
      ensures ok <==> SegmentDepth(L.words[Static(i)], L.offset[i], old(depth), stack.Length, false) <= stack.Length
      ensures ok ==> depth == SegmentDepth(L.words[Static(i)], L.offset[i], old(depth), stack.Length, false)
      ensures ok ==> I(Hand(Static(i), L.words[Static(i)], L.words[Static(i)], -1), pos, roots)
      ensures ok && old(Within(V(Hand(Static(i), 0, L.words[Static(i)], -1)), bound)) ==>
                Within(V(Hand(Static(i), L.words[Static(i)], L.words[Static(i)], -1)), bound)
    {
      hide *;
      HasRoom(Hand(Static(i), 0, L.words[Static(i)], -1), pos, roots);
      var a := Static(i);
      var top := L.words[a];
      var h: nat := HBLK_WORDS - L.offset[i];
      ghost var d, len := depth, stack.Length;
      if top <= h {
        OnePiece(top, L.offset[i], d, len);
        ok := PushAll(a, 0, top, pos, roots, bound);
        return;
      }
      OverFirst(top, L.offset[i], d, len);
      ok := PushAll(a, 0, h, pos, roots, bound);
      ghost var j: nat := 0;
      while ok && h + HBLK_WORDS <= top
        invariant 0 < h == HBLK_WORDS - L.offset[i] + j * HBLK_WORDS <= top
        invariant ok <==> d < len
        invariant ok ==> depth == d + 1 + j && (j > 0 ==> depth <= 3 * len / 4 + 2)
        invariant ok ==> I(Hand(a, h, top, -1), pos, roots)
        invariant ok && old(Within(V(Hand(a, 0, top, -1)), bound)) ==> Within(V(Hand(a, h, top, -1)), bound)
      {
        if depth - 1 > 3 * stack.Length / 4 {
          NearlyFull(top, L.offset[i], d, len, j);
          ok := PushAll(a, h, top, pos, roots, bound);
          return;
        }
        ok := PushAll(a, h, h + HBLK_WORDS, pos, roots, bound);
        h, j := h + HBLK_WORDS, j + 1;
      }
      if ok {
        LastPage(top, L.offset[i], d, len, j);
        ok := PushAll(a, h, top, pos, roots, bound);
      }
    }

    // GC_push_roots: the static segments, then every word of the stacks and registers eagerly.
    // Not ok means that GC_push_all aborted.
    method PushRoots(all: bool, ghost pos: nat, ghost bound: set<Obj>) returns (ok: bool)
      requires I(Nothing, pos, 0)
      modifies `marked, `depth, `state, `tooSmall, stack
      ensures ok <==> RootsDepth(L, L.statics, old(depth), stack.Length, all) <= stack.Length
      ensures ok ==> I(Nothing, pos, L.statics + 1)
      ensures ok ==> old(marked) <= marked && (marked == old(marked) ==> state == old(state))
      ensures ok ==> (state == old(state) || state == MS_INVALID) && Overflow()
      ensures ok && old(Within(V(Nothing), bound)) ==> Within(V(Nothing), bound)
    {
      hide Inv, Within, Layout.WellFormed, Shape, SegmentDepth, SegmentWords, SegmentOffset, Ample;
      for i := 0 to L.statics
        invariant I(Nothing, pos, i) && marked == old(marked) && state == old(state) && tooSmall == old(tooSmall)
        invariant depth == RootsDepth(L, i, old(depth), stack.Length, all)
        invariant old(Within(V(Nothing), bound)) ==> Within(V(Nothing), bound)
      {
        ok := PushStatic(i, all, pos, bound);
        if !ok {
          DepthGrows(L, i + 1, L.statics, old(depth), stack.Length, all);
          return;
        }
      }
      PushStacks(pos, bound);
      ok := true;
    }

    // GC_push_conditional on one static segment.
    method PushStatic(i: nat, all: bool, ghost pos: nat, ghost bound: set<Obj>) returns (ok: bool)
      requires i < L.statics && I(Nothing, pos, i)
      modifies `depth, stack
      ensures ok <==>
              SegmentDepth(SegmentWords(L, i), SegmentOffset(L, i), old(depth), stack.Length, all) <= stack.Length
      ensures ok ==> depth == SegmentDepth(SegmentWords(L, i), SegmentOffset(L, i), old(depth), stack.Length, all)
      ensures ok ==> I(Nothing, pos, i + 1)
      ensures ok && old(Within(V(Nothing), bound)) ==> Within(V(Nothing), bound)
    {
      var a := Static(i);
      assert L.IsArea(a);
      TakeRoot(V(Nothing), state, pos, a, bound);
      assert V(Hand(a, 0, L.words[a], -1)) == V(Nothing).(hand := Hand(a, 0, L.words[a], -1));
      if all {
        ok := PushAll(a, 0, L.words[a], pos, i + 1, bound);
      } else {
        ok := PushSelected(i, pos, i + 1, bound);
      }
      if ok {
        assert V(Nothing) == V(Hand(a, L.words[a], L.words[a], -1)).(hand := Nothing);
        ShrinkHand(V(Hand(a, L.words[a], L.words[a], -1)), state, pos, i + 1, bound, Nothing);
      }
    }

    // GC_push_all_eager on the stacks.
    method PushStacks(ghost pos: nat, ghost bound: set<Obj>)
      requires I(Nothing, pos, L.statics)
      modifies `marked, `depth, `state, `tooSmall, stack
      ensures I(Nothing, pos, L.statics + 1)
      ensures Grew()
      ensures old(Within(V(Nothing), bound)) ==> Within(V(Nothing), bound)
    {
      assert L.IsArea(Stacks);
      var n := L.words[Stacks];
      TakeRoot(V(Nothing), state, pos, Stacks, bound);
      assert V(Hand(Stacks, 0, n, -1)) == V(Nothing).(hand := Hand(Stacks, 0, n, -1));
      StackWords(n, pos, bound);
      assert V(Nothing) == V(Hand(Stacks, n, n, -1)).(hand := Nothing);
      ShrinkHand(V(Hand(Stacks, n, n, -1)), state, pos, L.statics + 1, bound, Nothing);
    }

    method StackWords(n: nat, ghost pos: nat, ghost bound: set<Obj>)
      requires Stacks in L.words && n == L.words[Stacks] && I(Hand(Stacks, 0, n, -1), pos, L.statics + 1)
      modifies `marked, `depth, `state, `tooSmall, stack
      ensures I(Hand(Stacks, n, n, -1), pos, L.statics + 1)
      ensures Grew()
      ensures old(Within(V(Hand(Stacks, 0, n, -1)), bound)) ==> Within(V(Hand(Stacks, n, n, -1)), bound)
    {
      hide Inv, Within, Layout.WellFormed, Shape, Ample;
      for i := 0 to n
        invariant I(Hand(Stacks, i, n, -1), pos, L.statics + 1)
        invariant Grew()
        invariant old(Within(V(Hand(Stacks, 0, n, -1)), bound)) ==> Within(V(Hand(Stacks, i, n, -1)), bound)
      {
        ScanWord(Stacks, i, Hand(Stacks, i, n, -1), Hand(Stacks, i + 1, n, -1), pos, L.statics + 1, bound);
      }
    }

    // In a nonincremental collector writes go unnoticed, so nothing is known between collections.
    ghost function Mode(): MarkState
      reads this
    {
      if state == MS_NONE && !incremental then MS_INVALID else state
    }

    // What holds at any time the lock is free, whatever the mark state.
    ghost predicate Base()
      reads this, stack
    {
      && depth <= stack.Length && stack.Length >= INITIAL_MARK_STACK_SIZE
      && Shape(V(Nothing)) && marked <= L.block.Keys
      && scan <= |L.blocks|
      && (!objectsAreMarked ==> forall o <- marked :: L.IsUncollectable(o))
      && (!incremental ==> dirty == {})
      && extra == {}
    }

    // The marker's invariant: that of the mark state, and what the states say of the other fields.
    ghost predicate Valid()
      reads this, stack
    {
      && Base()
      && Inv(V(Nothing), Mode(), scan, if state in {MS_NONE, MS_ROOTS_PUSHED} then L.statics + 1 else 0)
      && (state in {MS_NONE, MS_ROOTS_PUSHED} ==> scan == 0)
      && (state == MS_NONE ==> depth == 0)
      && (state == MS_PUSH_RESCUERS ==> incremental)
      && (state in {MS_ROOTS_PUSHED, MS_PARTIALLY_INVALID} ==> objectsAreMarked)
      && (state == MS_INVALID && !objectsAreMarked ==> scan == 0)
    }

    // The invariant between calls into the collector.  A nonincremental one is never left inside a
    // mark phase that it could resume.
    ghost predicate Ready()
      reads this, stack
    {
      Base() && if incremental then Valid() else state in {MS_NONE, MS_INVALID}
    }

    ghost function Rank(): nat
      reads `state, `objectsAreMarked, `scan
    {
      match state
      case MS_NONE => 0
      case MS_ROOTS_PUSHED => 1
      case MS_PUSH_RESCUERS => 2
      case MS_PARTIALLY_INVALID => 2
      case MS_INVALID => if !objectsAreMarked then 6 else if scan == 0 then 3 else 4
      case MS_PUSH_UNCOLLECTABLE => 5
    }

    ghost function Left(): Measure
      reads `marked, `state, `objectsAreMarked, `scan, `stack, `depth, stack
    {
      Measure(|L.block.Keys - marked|, Rank(), if scan <= |L.blocks| then |L.blocks| - scan else 0, Work(St()))
    }

    // MARK_FROM_MARK_STACK as a step of the mark phase.
    method MarkStep(ghost bound: set<Obj>)
      requires Valid() && state != MS_NONE && depth > 0 && (state == MS_INVALID ==> objectsAreMarked)
      modifies `marked, `depth, `state, `tooSmall, `objectsAreMarked, stack
      ensures Valid() && state != MS_NONE && old(marked) <= marked && Less(Left(), old(Left()))
      ensures state == old(state) || state == MS_INVALID
      ensures (old(tooSmall) ==> tooSmall) && (tooSmall && !old(tooSmall) ==> state == MS_INVALID)
      ensures state == MS_INVALID && old(state) != MS_INVALID ==> tooSmall
      ensures old(Within(V(Nothing), bound)) ==> Within(V(Nothing), bound)
    {
      hide Inv, Within, Layout.WellFormed, Shape, OnStack;
      ghost var seen := MarkFrom(scan, if state == MS_ROOTS_PUSHED then L.statics + 1 else 0, bound);
      if state == MS_INVALID {
        InvalidInv(V(Nothing), scan, 0);
      }
      FewerUnmarked(L.block.Keys, old(marked), marked);
    }

    // Room for the objects of one block.
    predicate Roomy()
      reads this, stack
    {
      depth + INITIAL_MARK_STACK_SIZE / 2 <= stack.Length
    }

    lemma EmptyIsRoomy()
      requires Valid() && depth == 0
      ensures Roomy()
    {
    }

    // The roots cannot be pushed after what is on the stack.
    predicate TooManyRoots(used: nat, len: nat, all: bool) {
      RootsDepth(L, L.statics, used, len, all) > len
    }

    // The next step of the mark phase is to push the roots, and GC_push_all will find the stack full and abort.
    ghost predicate WillAbort(grow: bool)
      reads this, stack
    {
      match state
      case MS_PUSH_RESCUERS =>
        && depth - 1 < stack.Length - INITIAL_MARK_STACK_SIZE / 2
        && NoneWanted(scan, state) && TooManyRoots(depth, stack.Length, false)
      case MS_PUSH_UNCOLLECTABLE =>
        depth - 1 < stack.Length / 4 && NoneWanted(scan, state) && TooManyRoots(depth, stack.Length, true)
      case MS_PARTIALLY_INVALID =>
        depth == 0 && NoneWanted(scan, state) && TooManyRoots(0, stack.Length, true)
      case MS_INVALID =>
        && objectsAreMarked && depth == 0 && scan == 0 && NoneWanted(0, MS_PARTIALLY_INVALID)
        && TooManyRoots(0, if tooSmall && grow then 2 * stack.Length else stack.Length, true)
      case _ => false
    }

    // Where a step leads to: the roots are pushed only if there was room for them, and no step goes back to the scan
    // for rescuers.
    ghost predicate Entered(before: MarkState)
      reads `state, `stack
    {
      && (state == MS_ROOTS_PUSHED && before != MS_ROOTS_PUSHED ==> RootCount(L, L.statics) <= stack.Length)
      && (state == MS_PUSH_RESCUERS ==> before == MS_PUSH_RESCUERS)
    }

    // There are so few root segments that they can be pushed as wholes.
    predicate FewRoots() {
      RootCount(L, L.statics) <= 3 * (INITIAL_MARK_STACK_SIZE / 4)
    }

    // There are so few that they can also be pushed page by page.
    predicate VeryFewRoots() {
      2 * RootCount(L, L.statics) < INITIAL_MARK_STACK_SIZE / 4
    }

    // Few enough for the way the collector works.
    predicate RootsFit() {
      if incremental then VeryFewRoots() else FewRoots()
    }

    lemma FewRootsFit(grow: bool)
      requires Valid()
      ensures FewRoots() && state != MS_PUSH_RESCUERS ==> !WillAbort(grow)
      ensures VeryFewRoots() ==> !WillAbort(grow) && FewRoots()
      ensures RootsFit() ==> FewRoots()
    {
      assert stack.Length >= INITIAL_MARK_STACK_SIZE;
      OneEntryEach(L, L.statics, depth, stack.Length);
      OneEntryEach(L, L.statics, 0, stack.Length);
      OneEntryEach(L, L.statics, 0, 2 * stack.Length);
      TwoEntriesEach(L, L.statics, depth, stack.Length);
      hide Inv, Shape, NoneWanted;
    }

    // One block of the scan for rescuers or uncollectable objects, or the roots after the last block.
    method PushStep(all: bool, ghost bound: set<Obj>) returns (r: Outcome)
      requires Valid() && state != MS_NONE && state in {MS_PUSH_RESCUERS, MS_PUSH_UNCOLLECTABLE, MS_PARTIALLY_INVALID}
      requires Roomy()
      modifies `marked, `depth, `state, `tooSmall, `objectsAreMarked, `scan, stack
      ensures r == Abort || r == More
      ensures r == Abort <==> old(NoneWanted(scan, state) && TooManyRoots(depth, stack.Length, all))
      ensures r == More ==> Entered(old(state))
      ensures r == More ==> (old(tooSmall) ==> tooSmall) && (tooSmall && !old(tooSmall) ==> state == MS_INVALID)
      ensures r == More && state == MS_INVALID ==> tooSmall
      ensures r == More ==> Valid() && state != MS_NONE && old(marked) <= marked && Less(Left(), old(Left()))
      ensures r == More && old(Within(V(Nothing), bound)) ==> Within(V(Nothing), bound)
    {
      hide Inv, Within, Layout.WellFormed, Shape, TooManyRoots, NoneWanted;
      var more := NextBlock(bound);
      if more {
        return More;
      }
      r := RootsStep(all, bound);
      if r == More {
        FewerUnmarked(L.block.Keys, old(marked), marked);
      }
    }

    // A scan goes on to the next block that it wants, if there is one.
    method NextBlock(ghost bound: set<Obj>) returns (more: bool)
      requires Valid() && state in {MS_PUSH_RESCUERS, MS_PUSH_UNCOLLECTABLE, MS_PARTIALLY_INVALID} && Roomy()
      modifies `depth, `state, `tooSmall, `objectsAreMarked, `scan, stack
      ensures state == old(state) && tooSmall == old(tooSmall) && (more <==> !old(NoneWanted(scan, state)))
      ensures more ==> Valid() && Less(Left(), old(Left()))
      ensures !more ==> I(Nothing, |L.blocks|, 0) && scan == 0 && depth == old(depth) && St() == old(St())
      ensures extra == {} && (!incremental ==> dirty == {})
      ensures old(Within(V(Nothing), bound)) ==> Within(V(Nothing), bound)
    {
      hide Inv, Within, Layout.WellFormed, Shape, NoneWanted, St;
      var next := PushNext(scan, 0, bound);
      scan := next;
      more := next > 0;
    }

    // The end of a scan: push the roots and, unless that overflowed, settle down to marking.
    method RootsStep(all: bool, ghost bound: set<Obj>) returns (r: Outcome)
      requires I(Nothing, |L.blocks|, 0) && extra == {} && scan == 0 && (!incremental ==> dirty == {})
      requires state in {MS_PUSH_RESCUERS, MS_PUSH_UNCOLLECTABLE, MS_PARTIALLY_INVALID}
      modifies `marked, `depth, `state, `tooSmall, `objectsAreMarked, stack
      ensures r == Abort || r == More
      ensures r == More ==>
                Valid() && state != MS_NONE && objectsAreMarked && old(marked) <= marked &&
                    state in {MS_ROOTS_PUSHED, MS_INVALID}
      ensures r == Abort <==> old(TooManyRoots(depth, stack.Length, all))
      ensures r == More ==> Entered(old(state))
      ensures r == More && marked == old(marked) ==> state == MS_ROOTS_PUSHED
      ensures r == More ==> (old(tooSmall) ==> tooSmall) && (tooSmall && !old(tooSmall) ==> state == MS_INVALID)
      ensures r == More && state == MS_INVALID ==> tooSmall
      ensures r == More && old(Within(V(Nothing), bound)) ==> Within(V(Nothing), bound)
    {
      hide Inv, Within, Layout.WellFormed, Shape, OnStack, RootsDepth, RootCount;
      AnEntryEach(L, L.statics, depth, stack.Length, all);
      var ok := PushRoots(all, |L.blocks|, bound);
      if !ok {
        return Abort;
      }
      objectsAreMarked := true;
      if state != MS_INVALID {
        ScanComplete(V(Nothing), state);
        state := MS_ROOTS_PUSHED;
      } else {
        InvalidInv(V(Nothing), 0, 0);
      }
      return More;
    }

    // The cases MS_INVALID and MS_PARTIALLY_INVALID of GC_mark_some.
    method InvalidStep(grow: bool, ghost bound: set<Obj>) returns (r: Outcome)
      requires Valid() && state in {MS_INVALID, MS_PARTIALLY_INVALID}
      modifies `marked, `depth, `state, `tooSmall, `objectsAreMarked, `scan, `stack, stack
      ensures stack == old(stack) || fresh(stack)
      ensures r != Abort ==> Wished(grow, r)
      ensures !grow ==> stack == old(stack)
      ensures r == Abort || r == More
      ensures r == Abort <==> old(WillAbort(grow))
      ensures r == More ==> Entered(old(state))
      ensures r == More ==> Valid() && state != MS_NONE && old(marked) <= marked && Less(Left(), old(Left()))
      ensures r == More && old(Within(V(Nothing), bound)) ==> Within(V(Nothing), bound)
    {
      hide Inv, Within, Shape, Layout.WellFormed, OnStack, Base, Left, Less, TooManyRoots, NoneWanted, RootCount, V,
           Roomy;
      if !objectsAreMarked {
        StartUncollectable(bound);
        r := More;
      } else if depth > 0 {
        MarkStep(bound);
        r := More;
      } else if scan == 0 && state == MS_INVALID {
        r := FirstBlock(grow, bound);
      } else if state == MS_PARTIALLY_INVALID {
        EmptyIsRoomy();
        r := PushStep(true, bound);
      } else {
        FinishScan(bound);
        r := More;
      }
    }

    method StartUncollectable(ghost bound: set<Obj>)
      requires Valid() && state in {MS_INVALID, MS_PARTIALLY_INVALID} && !objectsAreMarked
      modifies `state
      ensures Valid() && state == MS_PUSH_UNCOLLECTABLE && Less(Left(), old(Left()))
      ensures old(Within(V(Nothing), bound)) ==> Within(V(Nothing), bound)
    {
      hide Inv, Within, Layout.WellFormed, Shape, OnStack;
      ghost var v := V(Nothing);
      ScanStart(v, MS_PUSH_UNCOLLECTABLE);
      state := MS_PUSH_UNCOLLECTABLE;
      assert V(Nothing) == v;
    }

    method FirstBlock(grow: bool, ghost bound: set<Obj>) returns (r: Outcome)
      requires Valid() && state == MS_INVALID && objectsAreMarked && scan == 0 && depth == 0
      modifies `marked, `depth, `state, `tooSmall, `objectsAreMarked, `scan, `stack, stack
      ensures stack == old(stack) || fresh(stack)
      ensures stack.Length == (if old(tooSmall) && grow then 2 else 1) * old(stack.Length)
      ensures r == More ==> (tooSmall <==> state == MS_INVALID)
      ensures !grow ==> stack == old(stack)
      ensures r == Abort || r == More
      ensures r == Abort <==> old(WillAbort(grow))
      ensures r == More ==> Entered(old(state))
      ensures r == More ==> Valid() && state != MS_NONE && old(marked) <= marked && Less(Left(), old(Left()))
      ensures r == More && old(Within(V(Nothing), bound)) ==> Within(V(Nothing), bound)
    {
      hide Inv, Within, Shape, Layout.WellFormed, OnStack, Base, Left, Less, TooManyRoots, NoneWanted, RootCount, V,
           Roomy;
      ghost var m0 := Left();
      StartScan(grow, bound);
      ghost var m1 := Left();
      r := PushStep(true, bound);
      if r == More {
        LessTrans(Left(), m1, m0);
      }
    }

    // A scan that an overflow made useless is carried to its end all the same.
    method FinishScan(ghost bound: set<Obj>)
      requires Valid() && state == MS_INVALID && objectsAreMarked && scan > 0 && depth == 0
      modifies `depth, `state, `tooSmall, `objectsAreMarked, `scan, stack
      ensures Valid() && state == MS_INVALID && marked == old(marked) && tooSmall == old(tooSmall)
      ensures scan == 0 <==> old(NoneWanted(scan, state))
      ensures Less(Left(), old(Left()))
      ensures old(Within(V(Nothing), bound)) ==> Within(V(Nothing), bound)
    {
      hide Inv, Within, Layout.WellFormed, Shape, OnStack, RootsDepth, RootCount, NoneWanted;
      var next := PushNext(scan, 0, bound);
      scan := next;
      InvalidInv(V(Nothing), scan, 0);
    }

    // The start of a heap scan for marked objects, with an empty stack.
    method StartScan(grow: bool, ghost bound: set<Obj>)
      requires Valid() && state != MS_NONE && state == MS_INVALID && objectsAreMarked && scan == 0 && depth == 0
      modifies `depth, `state, `tooSmall, `stack
      ensures stack == old(stack) || fresh(stack)
      ensures !grow ==> stack == old(stack)
      ensures Valid() && state != MS_NONE && state == MS_PARTIALLY_INVALID && depth == 0 && Roomy() && !tooSmall
      ensures stack.Length == if old(tooSmall) && grow then 2 * old(stack.Length) else old(stack.Length)
      ensures Less(Left(), old(Left()))
      ensures old(Within(V(Nothing), bound)) ==> Within(V(Nothing), bound)
    {
      hide Inv, Within, Layout.WellFormed, Shape, OnStack;
      ghost var v := V(Nothing);
      if tooSmall {
        GrowStack(grow);
      }
      assert V(Nothing) == v;
      ScanStart(v, MS_PARTIALLY_INVALID);
      state := MS_PARTIALLY_INVALID;
    }

    // alloc_mark_stack(2 * GC_mark_stack_size) on an empty stack; it may fail silently.
    method GrowStack(grow: bool)
      requires depth == 0 && stack.Length >= INITIAL_MARK_STACK_SIZE
      modifies `tooSmall, `stack, `depth
      ensures depth == 0 && !tooSmall && stack.Length >= INITIAL_MARK_STACK_SIZE
      ensures if grow then fresh(stack) && stack.Length == 2 * old(stack.Length) else stack == old(stack)
    {
      tooSmall := false;
      if grow {
        stack := new Entry[2 * stack.Length](_ => Entry(Stacks, 0, 0));
      }
      depth := 0;
    }

    // The scan for rescuers finds the stack nearly full.
    predicate AlmostFull()
      reads `state, `depth, `stack
    {
      state == MS_PUSH_RESCUERS && depth - 1 >= stack.Length - INITIAL_MARK_STACK_SIZE / 2
    }

    // A scan for marked objects begins, with an empty stack.
    predicate Restarts()
      reads `state, `objectsAreMarked, `depth, `scan
    {
      state == MS_INVALID && objectsAreMarked && depth == 0 && scan == 0
    }

    // A larger stack is wanted after an overflow, and when the scan for rescuers finds the stack nearly full.  There is
    // one, twice as large, if it can be had, at the end of the mark phase or when a scan for marked objects begins.
    twostate predicate Wished(grow: bool, r: Outcome)
      reads this
    {
      if r == Done || old(Restarts()) then
        && stack.Length == (if old(tooSmall) && grow then 2 else 1) * old(stack.Length)
        && (tooSmall <==> r != Done && state == MS_INVALID)
      else
        && stack == old(stack) && (old(tooSmall || AlmostFull()) ==> tooSmall)
        && (tooSmall ==> old(tooSmall || AlmostFull()) || state == MS_INVALID)
        && (state == MS_INVALID && old(state) != MS_INVALID ==> tooSmall)
    }

    // GC_mark_some: one small step of the mark state machine.  `grow` says whether a larger mark
    // stack can be had if one is wanted.
    method MarkSome(grow: bool, ghost bound: set<Obj>) returns (r: Outcome)
      requires Valid()
      modifies `marked, `depth, `state, `tooSmall, `objectsAreMarked, `scan, `stack, stack
      ensures stack == old(stack) || fresh(stack)
      ensures !grow ==> stack == old(stack)
      ensures r == Abort <==> old(WillAbort(grow))
      ensures r != Abort ==> Valid() && old(marked) <= marked && Entered(old(state))
      ensures r == Done ==> old(state) == MS_ROOTS_PUSHED && stack.Length >= old(stack.Length)
      ensures old(state) == MS_ROOTS_PUSHED && r == More ==> stack == old(stack)
      ensures r != Abort ==> Wished(grow, r)
      ensures r == Done ==>
                state == MS_NONE && depth == 0 && objectsAreMarked && Inv(V(Nothing), MS_NONE, 0, L.statics + 1)
      ensures old(state) == MS_NONE ==> r == More && state == MS_NONE && marked == old(marked)
      ensures old(state) != MS_NONE && r == More ==> state != MS_NONE && Less(Left(), old(Left()))
      ensures r != Abort && old(Within(V(Nothing), bound)) ==> Within(V(Nothing), bound)
    {
      hide Inv, Within, Shape, Layout.WellFormed, OnStack, Base, Left, Less, TooManyRoots, NoneWanted, RootCount, V,
           Roomy;
      match state
      case MS_NONE =>
        r := More;
      case MS_PUSH_RESCUERS =>
        r := RescuersStep(bound);
      case MS_PUSH_UNCOLLECTABLE =>
        r := UncollectableStep(bound);
      case MS_ROOTS_PUSHED =>
        if depth > 0 {
          MarkStep(bound);
          r := More;
        } else {
          FinishMarking(grow, bound);
          r := Done;
        }
      case _ =>
        r := InvalidStep(grow, bound);
    }

    method RescuersStep(ghost bound: set<Obj>) returns (r: Outcome)
      requires Valid() && state == MS_PUSH_RESCUERS
      modifies `marked, `depth, `state, `tooSmall, `objectsAreMarked, `scan, stack
      ensures r == Abort || r == More
      ensures r == More ==> (old(tooSmall || AlmostFull()) ==> tooSmall) && (state == MS_INVALID ==> tooSmall)
      ensures r == More && tooSmall ==> old(tooSmall || AlmostFull()) || state == MS_INVALID
      ensures r == Abort <==> old(WillAbort(false))
      ensures r == More ==> Entered(old(state))
      ensures r == More ==> Valid() && state != MS_NONE && old(marked) <= marked && Less(Left(), old(Left()))
      ensures r == More && old(Within(V(Nothing), bound)) ==> Within(V(Nothing), bound)
    {
      hide Inv, Within, Layout.WellFormed, Shape, NoneWanted, TooManyRoots, Left, Less, V;
      assert stack.Length >= INITIAL_MARK_STACK_SIZE;
      if depth - 1 >= stack.Length - INITIAL_MARK_STACK_SIZE / 2 {
        WantLargerStack(bound);
        hide *;
        MarkStep(bound);
        r := More;
      } else {
        assert Roomy();
        hide *;
        r := PushStep(false, bound);
      }
    }

    method WantLargerStack(ghost bound: set<Obj>)
      requires Valid()
      modifies `tooSmall
      ensures Valid() && Left() == old(Left()) && tooSmall
      ensures old(Within(V(Nothing), bound)) ==> Within(V(Nothing), bound)
    {
      hide Inv, Within, Layout.WellFormed, Shape, OnStack;
      ghost var v := V(Nothing);
      tooSmall := true;
      assert V(Nothing) == v;
    }

    method UncollectableStep(ghost bound: set<Obj>) returns (r: Outcome)
      requires Valid() && state == MS_PUSH_UNCOLLECTABLE
      modifies `marked, `depth, `state, `tooSmall, `objectsAreMarked, `scan, stack
      ensures r == Abort || r == More
      ensures r == More ==> (old(tooSmall) ==> tooSmall) && (tooSmall && !old(tooSmall) ==> state == MS_INVALID)
      ensures r == More && state == MS_INVALID ==> tooSmall
      ensures r == Abort <==> old(WillAbort(false))
      ensures r == More ==> Entered(old(state))
      ensures r == More ==> Valid() && state != MS_NONE && old(marked) <= marked && Less(Left(), old(Left()))
      ensures r == More && old(Within(V(Nothing), bound)) ==> Within(V(Nothing), bound)
    {
      hide Inv, Within, Layout.WellFormed, Shape, NoneWanted, TooManyRoots, Left, Less, V;
      assert stack.Length >= INITIAL_MARK_STACK_SIZE;
      if depth - 1 >= stack.Length / 4 {
        hide *;
        MarkStep(bound);
        r := More;
      } else {
        assert Roomy();
        hide *;
        r := PushStep(true, bound);
      }
    }

    // The mark stack has run empty in MS_ROOTS_PUSHED.
    method FinishMarking(grow: bool, ghost bound: set<Obj>)
      requires Valid() && state == MS_ROOTS_PUSHED && depth == 0
      modifies `depth, `state, `tooSmall, `stack
      ensures stack == old(stack) || fresh(stack)
      ensures stack.Length == (if old(tooSmall) && grow then 2 else 1) * old(stack.Length) && !tooSmall
      ensures !grow ==> stack == old(stack)
      ensures Valid() && state == MS_NONE && depth == 0 && objectsAreMarked
      ensures Inv(V(Nothing), MS_NONE, 0, L.statics + 1)
      ensures old(Within(V(Nothing), bound)) ==> Within(V(Nothing), bound)
    {
      hide Inv, Within, Layout.WellFormed, Shape, OnStack;
      ghost var v := V(Nothing);
      RootsPushedToNone(v);
      state := MS_NONE;
      if tooSmall {
        GrowStack(grow);
      }
      assert V(Nothing) == v;
      InvalidInv(v, 0, L.statics + 1);
    }

    /****** entering and leaving a mark phase ******/

    constructor (layout: Layout, memory: map<Area, seq<Word>>, dirtyMaintained: bool)
      requires layout.WellFormed() && memory.Keys == layout.words.Keys
      requires forall a <- memory :: |memory[a]| == layout.words[a]
      ensures Valid() && state == MS_NONE && marked == {}
      ensures L == layout && mem == memory && incremental == dirtyMaintained && fresh(stack)
      ensures stack.Length == INITIAL_MARK_STACK_SIZE && !tooSmall && !objectsAreMarked
      ensures dirty == {} && rootsDirty == set a <- layout.words.Keys | !a.Heap?
    {
      L, mem, incremental := layout, memory, dirtyMaintained;
      marked, state, depth, tooSmall, scan, objectsAreMarked := {}, MS_NONE, 0, false, 0, false;
      stack := new Entry[INITIAL_MARK_STACK_SIZE](_ => Entry(Stacks, 0, 0));
      dirty, grungy, extra := {}, {}, {};
      rootsDirty := set a <- layout.words.Keys | !a.Heap?;
    }

    // A mutator write.  The dirty bits record it when they are maintained; otherwise the world is
    // stopped during marking and writes come only between mark phases.
    method Write(a: Area, k: nat, x: Word)
      requires Ready() && a in mem && k < |mem[a]|
      modifies `mem, `dirty, `rootsDirty
      ensures Ready()
      ensures mem == old(mem)[a := old(mem)[a][k := x]]
      ensures dirty == old(dirty) + if incremental && a.Heap? then {L.block[a.o]} else {}
    {
      hide Inv, Shape, Layout.WellFormed, Written, Marker.St;
      ghost var v := V(Nothing);
      WriteReady(a, k, x);
      mem := mem[a := mem[a][k := x]];
      match a {
        case Heap(o) => if incremental { dirty := dirty + {L.block[o]}; }
        case _ => rootsDirty := rootsDirty + {a};
      }
      assert V(Nothing) == Written(v, a, k, x, incremental) by { IsWritten(v, a, k, x, incremental, V(Nothing)); }
    }

    lemma WriteReady(a: Area, k: nat, x: Word)
      requires Ready() && a in mem && k < |mem[a]|
      ensures a.Heap? ==> a.o in L.block
      ensures Shape(Written(V(Nothing), a, k, x, incremental))
      ensures incremental ==>
                Inv(Written(V(Nothing), a, k, x, incremental), Mode(), scan,
                    if state in {MS_NONE, MS_ROOTS_PUSHED} then L.statics + 1 else 0)
    {
      assert L.IsArea(a);
      hide Inv, Layout.WellFormed, Written, Marker.St;
      WrittenInv(V(Nothing), a, k, x, incremental, Mode(), scan,
          if state in {MS_NONE, MS_ROOTS_PUSHED} then L.statics + 1 else 0);
    }

    // GC_initiate_gc.
    method InitiateGc()
      requires Base() && (state == MS_INVALID || (state == MS_NONE && incremental && Valid()))
      modifies `state, `scan, `dirty, `grungy, `rootsDirty
      ensures Valid() && dirty == {} && rootsDirty == {}
      ensures state == if old(state) == MS_NONE then MS_PUSH_RESCUERS else MS_INVALID
      ensures grungy == if incremental then old(dirty) else old(grungy)
      ensures forall bound :: old(Within(V(Nothing), bound)) ==> Within(V(Nothing), bound)
    {
      hide Inv, Within, Shape, Layout.WellFormed;
      ghost var v := V(Nothing);
      if incremental {
        grungy := dirty;
        dirty := {};
      }
      rootsDirty := {};
      assert V(Nothing) == v.(dirty := dirty, grungy := grungy, rootsDirty := {});
      BitsRead(v, dirty, grungy);
      if state == MS_NONE {
        state := MS_PUSH_RESCUERS;
        RescuersInv(v, V(Nothing));
      } else {
        InvalidInv(V(Nothing), 0, 0);
      }
      scan := 0;
    }

    lemma BitsRead(v: View, dirty: set<nat>, grungy: set<nat>)
      requires Shape(v)
      ensures var w := v.(dirty := dirty, grungy := grungy, rootsDirty := {});
              Shape(w) && forall bound :: Within(v, bound) ==> Within(w, bound)
    {
      hide Layout.WellFormed;
      var w := v.(dirty := dirty, grungy := grungy, rootsDirty := {});
      forall bound | Within(v, bound) ensures Within(w, bound) { WithinBits(v, w, bound); }
    }

    lemma WithinBits(v: View, w: View, bound: set<Obj>)
      requires Within(v, bound) && w == v.(dirty := w.dirty, grungy := w.grungy, rootsDirty := w.rootsDirty)
      ensures Within(w, bound)
    {
      hide Layout.WellFormed;
      forall a ensures MayScan(w, bound, a) == MayScan(v, bound, a) {}
    }

    // GC_clear_marks: only uncollectable objects keep their marks.
    method ClearMarks()
      requires Base()
      modifies `marked, `objectsAreMarked, `state, `scan
      ensures Valid() && state == MS_INVALID && !objectsAreMarked
      ensures marked == set o <- old(marked) | L.IsUncollectable(o)
    {
      hide Inv, Shape;
      ghost var v := V(Nothing);
      marked := set o <- marked | L.IsUncollectable(o);
      objectsAreMarked := false;
      state := MS_INVALID;
      scan := 0;
      assert V(Nothing) == v.(marked := marked);
      FewerMarked(v, marked);
      InvalidInv(V(Nothing), 0, 0);
    }

    lemma FewerMarked(v: View, marked: set<Obj>)
      requires Shape(v) && marked <= v.marked
      ensures Shape(v.(marked := marked))
    {
    }

    // GC_invalidate_mark_state.
    method InvalidateMarkState()
      requires Base()
      modifies `state, `depth
      ensures Base() && state == MS_INVALID && depth == 0
    {
      state := MS_INVALID;
      depth := 0;
    }

    // What a finished mark phase promises as long as nothing has been written since.
    ghost predicate Complete()
      reads this
    {
      && RootTargets(L, mem) <= marked
      && forall o :: Reachable(L, mem, RootTargets(L, mem) + marked, o) ==> o in marked
    }

    lemma DoneIsComplete()
      requires Valid() && Inv(V(Nothing), MS_NONE, 0, L.statics + 1) && depth == 0
      requires dirty == {} && rootsDirty == {}
      ensures Complete()
    {
      MarkedIsReachClosed(V(Nothing), MS_NONE, L.statics + 1);
    }

    /****** marking from one finalizable object (GC_MARK_FO) ******/

    // Between mark phases, with nothing pending and nothing written since the last one.
    ghost predicate Settling()
      reads this, stack
    {
      && Base() && state == MS_NONE && depth == 0 && scan == 0 && objectsAreMarked
      && dirty == {} && rootsDirty == {}
    }

    // The same, with the invariant of MS_NONE.
    ghost predicate Quiet()
      reads this, stack
    {
      Settling() && Inv(V(Nothing), MS_NONE, 0, L.statics + 1)
    }

    lemma QuietSettles()
      requires Quiet()
      ensures Settling()
    {
    }

    lemma QuietIffClosed()
      requires Settling()
      ensures Quiet() <==> PointerClosed(L, mem, marked)
    {
      if Quiet() { QuietIsClosed(V(Nothing)); }
      if PointerClosed(L, mem, marked) { ClosedIsQuiet(V(Nothing)); }
    }

    // GC_set_mark_bit
    method SetBit(p: Obj)
      requires Settling() && p in L.block
      modifies `marked
      ensures Settling() && marked == old(marked) + {p}
    {
      hide Inv, Layout.WellFormed;
      marked := marked + {p};
    }

    // It may be set on an object whose pointers have been traced without harm to the invariant.
    method SetTracedBit(p: Obj, proc: MarkProc)
      requires Quiet() && p in L.block && proc != NoOrder && Seeds(L, mem, proc, p) <= marked
      modifies `marked
      ensures Quiet() && marked == old(marked) + {p}
    {
      QuietIffClosed();
      TracedClosed(L, mem, marked, p, proc);
      assert Settling();
      hide Inv, Layout.WellFormed, Seeds, PointerClosed;
      SetBit(p);
      QuietIffClosed();
    }

    // The stack has room for every unmarked object and one more.
    ghost predicate Spacious()
      reads `marked, `stack
    {
      |L.block.Keys - marked| < stack.Length
    }

    // The targets of p with pointers of their own are all pushed before any is scanned, and there is no room for them.
    ghost predicate Crowded(p: Obj, proc: MarkProc)
      reads this, stack
    {
      proc == IgnoreSelf && |Heavy(L, Seeds(L, mem, proc, p)) - marked| > stack.Length
    }

    lemma NotCrowded(p: Obj, proc: MarkProc)
      requires p in L.block && (proc != IgnoreSelf || !L.HasDescr(p))
      ensures !Crowded(p, proc)
    {
      if proc == IgnoreSelf { assert Heavy(L, Seeds(L, mem, proc, p)) - marked == {}; }
    }

    // The mark procedures of finalize.c.
    method RunMarkProc(p: Obj, proc: MarkProc, ghost bound: set<Obj>)
      requires Quiet() && p in L.block
      requires Within(V(Nothing).(extra := if proc.PushesObject() then {p} else {}), bound)
      requires Seeds(L, mem, proc, p) <= bound
      modifies `marked, `depth, `state, `tooSmall, `extra, stack
      ensures I(Nothing, 0, L.statics + 1) && extra == (if proc.PushesObject() && L.HasDescr(p) then {p} else {})
      ensures old(marked) <= marked && Within(V(Nothing), bound)
      ensures proc == IgnoreSelf ==> Seeds(L, mem, proc, p) <= marked
      ensures state == MS_NONE || (state == MS_INVALID && depth > 0)
      ensures proc == NoOrder ==> depth == 0 && state == MS_NONE
      ensures mem == old(mem) && scan == old(scan) && dirty == old(dirty) && rootsDirty == old(rootsDirty)
      ensures objectsAreMarked == old(objectsAreMarked)
      ensures old(Spacious()) ==> Ample() && state == MS_NONE
      ensures old(Crowded(p, proc)) ==> state == MS_INVALID
    {
      hide Inv, Within, Layout.WellFormed, Shape, Seeds, Heavy, Marker.Crowded;
      if proc != IgnoreSelf || !L.HasDescr(p) { NotCrowded(p, proc); }
      match proc
      case Normal | Unreachable =>
        if L.HasDescr(p) {
          PushSelf(p, bound);
        } else {
          DropExtra(V(Nothing), p, bound);
        }
      case IgnoreSelf =>
        assert V(Nothing) == V(Nothing).(extra := {});
        if L.HasDescr(p) {
          PushOthers(p, bound);
        }
      case NoOrder =>
        assert V(Nothing) == V(Nothing).(extra := {});
    }

    // GC_normal_finalize_mark_proc.
    lemma SelfArea(p: Obj)
      requires Base() && p in L.block && L.HasDescr(p)
      ensures Heap(p) in L.words && L.words[Heap(p)] > 0
    {
      hide Inv;
      assert L.IsArea(Heap(p));
    }

    method PushSelf(p: Obj, ghost bound: set<Obj>)
      requires Quiet() && p in L.block && L.HasDescr(p)
      requires Within(V(Nothing).(extra := {p}), bound)
      modifies `depth, `state, `tooSmall, `extra, stack
      ensures I(Nothing, 0, L.statics + 1) && extra == {p} && depth == 1 && state == MS_NONE
      ensures Within(V(Nothing), bound) && (old(Spacious()) ==> Ample())
      ensures mem == old(mem) && marked == old(marked)
    {
      hide Inv, Within, Layout.WellFormed, Shape, Layout.HasDescr;
      ghost var v := V(Nothing);
      SelfArea(p);
      FoPushed(v, p, bound);
      extra := {p};
      PushEntry(Entry(Heap(p), 0, L.words[Heap(p)]));
      assert V(Nothing) == v.(extra := {p}, st := v.st + [Entry(Heap(p), 0, L.words[Heap(p)])]);
    }

    // GC_ignore_self_finalize_mark_proc: mark and push what p points to, except p itself.
    method PushOthers(p: Obj, ghost bound: set<Obj>)
      requires I(Nothing, 0, L.statics + 1) && p in L.block && L.HasDescr(p) && state == MS_NONE && extra == {}
      requires Within(V(Nothing), bound)
      requires Seeds(L, mem, IgnoreSelf, p) <= bound
      modifies `marked, `depth, `state, `tooSmall, stack
      ensures I(Nothing, 0, L.statics + 1) && old(marked) <= marked && Within(V(Nothing), bound)
      ensures Seeds(L, mem, IgnoreSelf, p) <= marked
      ensures state == MS_NONE || (state == MS_INVALID && depth > 0)
      ensures old(Crowded(p, IgnoreSelf)) ==> state == MS_INVALID
      ensures old(Ample()) ==> Ample() && state == MS_NONE
    {
      OthersBound(p, bound);
      hide *;
      var ws := mem[Heap(p)];
      PushWords(p, ws, bound);
      OthersMarked(L, mem, p, marked);
      TooMany(p, old(marked), old(depth));
    }

    lemma TooMany(p: Obj, m0: set<Obj>, d0: nat)
      requires I(Nothing, 0, L.statics + 1) && PushedAll(L, m0, d0, marked, depth, state)
      requires Seeds(L, mem, IgnoreSelf, p) <= marked
      ensures |Heavy(L, Seeds(L, mem, IgnoreSelf, p)) - m0| > stack.Length ==> state == MS_INVALID
    {
      HeavySeeds(L, Seeds(L, mem, IgnoreSelf, p), m0, marked);
    }

    lemma OthersBound(p: Obj, bound: set<Obj>)
      requires I(Nothing, 0, L.statics + 1) && p in L.block && L.HasDescr(p) && Seeds(L, mem, IgnoreSelf, p) <= bound
      ensures L.WellFormed() && Heap(p) in mem && Others(L, mem[Heap(p)], p, |mem[Heap(p)]|, bound)
    {
      assert L.IsArea(Heap(p));
      var ws := mem[Heap(p)];
      forall k | 0 <= k < |ws| && ws[k] in L.resolve && L.resolve[ws[k]] != p ensures L.resolve[ws[k]] in bound {
        OtherIsSeed(L, mem, p, k);
      }
    }

    method PushWords(p: Obj, ws: seq<Word>, ghost bound: set<Obj>)
      requires I(Nothing, 0, L.statics + 1) && state == MS_NONE && L.WellFormed()
      requires Within(V(Nothing), bound) && Others(L, ws, p, |ws|, bound)
      modifies `marked, `depth, `state, `tooSmall, stack
      ensures I(Nothing, 0, L.statics + 1) && old(marked) <= marked && Within(V(Nothing), bound)
      ensures Others(L, ws, p, |ws|, marked)
      ensures state == MS_NONE || (state == MS_INVALID && depth > 0)
      ensures PushedAll(L, old(marked), old(depth), marked, depth, state)
      ensures old(Ample()) ==> Ample() && state == MS_NONE
    {
      PushedNone(L, marked, depth, state);
      hide *;
      OthersNone(L, ws, p, marked);
      for i := 0 to |ws|
        invariant I(Nothing, 0, L.statics + 1) && old(marked) <= marked && Within(V(Nothing), bound)
        invariant Others(L, ws, p, i, marked)
        invariant state == MS_NONE || (state == MS_INVALID && depth > 0)
        invariant PushedAll(L, old(marked), old(depth), marked, depth, state)
        invariant old(Ample()) ==> Ample() && state == MS_NONE
      {
        OthersNext(L, ws, p, i, marked, bound);
        ghost var m1, d1, s1 := marked, depth, state;
        if L.Plausible(ws[i]) {
          PushOther(ws[i], p, bound);
          PushedMore(L, old(marked), old(depth), m1, d1, s1, marked, depth, state);
        }
        OthersStep(L, ws, p, i, m1, marked);
      }
    }

    method PushOther(w: Word, p: Obj, ghost bound: set<Obj>)
      requires I(Nothing, 0, L.statics + 1) && Within(V(Nothing), bound)
      requires w in L.resolve && L.resolve[w] != p ==> L.resolve[w] in bound
      requires state == MS_NONE || (state == MS_INVALID && depth > 0)
      modifies `marked, `depth, `state, `tooSmall, stack
      ensures I(Nothing, 0, L.statics + 1) && old(marked) <= marked && Within(V(Nothing), bound)
      ensures w in L.resolve && L.resolve[w] != p ==> L.resolve[w] in marked
      ensures state == MS_NONE || (state == MS_INVALID && depth > 0)
      ensures PushedAll(L, old(marked), old(depth), marked, depth, state)
      ensures old(state) == MS_INVALID ==> state == MS_INVALID
      ensures old(Ample()) ==> Ample() && state == old(state)
    {
      hide Inv, Within, Layout.WellFormed, Shape, Marker.Ample, Marker.I, Marker.V;
      PushedNone(L, marked, depth, state);
      if !(w in L.resolve && L.resolve[w] == p) {
        MarkAndPush(w, Nothing, 0, L.statics + 1, bound);
      }
    }

    // while (!GC_mark_stack_empty()) MARK_FROM_MARK_STACK();
    method Drain(ghost bound: set<Obj>)
      requires I(Nothing, 0, L.statics + 1) && state in {MS_NONE, MS_INVALID}
      modifies `marked, `depth, `state, `tooSmall, `objectsAreMarked, stack
      ensures old(depth) == 0 || old(Ample()) || old(state) == MS_INVALID ==> state == old(state)
      ensures mem == old(mem) && scan == old(scan) && dirty == old(dirty) && rootsDirty == old(rootsDirty)
      ensures extra == old(extra)
      ensures I(Nothing, 0, L.statics + 1) && depth == 0 && state in {MS_NONE, MS_INVALID}
      ensures old(marked) <= marked && (old(objectsAreMarked) ==> objectsAreMarked)
      ensures old(Within(V(Nothing), bound)) ==> Within(V(Nothing), bound)
    {
      hide Inv, Within, Layout.WellFormed, Shape;
      while depth > 0
        invariant I(Nothing, 0, L.statics + 1) && state in {MS_NONE, MS_INVALID}
        invariant old(depth) == 0 ==> depth == 0 && state == old(state)
        invariant old(state) == MS_INVALID ==> state == MS_INVALID
        invariant old(Ample()) ==> Ample() && state == old(state)
        invariant old(marked) <= marked && (old(objectsAreMarked) ==> objectsAreMarked)
        invariant old(Within(V(Nothing), bound)) ==> Within(V(Nothing), bound)
        decreases |L.block.Keys - marked|, Work(St())
      {
        ghost var before := marked;
        ghost var seen := MarkFrom(0, L.statics + 1, bound);
        FewerUnmarked(L.block.Keys, before, marked);
      }
    }

    // The recovery in GC_MARK_FO: GC_set_mark_bit(p), before marking starts over.
    method SetMarkBit(p: Obj, ghost proc: MarkProc, ghost bound: set<Obj>)
      requires I(Nothing, 0, L.statics + 1) && state == MS_INVALID && p in L.block && proc != NoOrder
      requires extra <= {p} && depth == 0 && scan == 0 && objectsAreMarked && dirty == {}
      requires Within(V(Nothing), bound) && Seeds(L, mem, proc, p) <= bound
      modifies `marked, `extra
      ensures Valid() && marked == old(marked) + {p} && extra == {}
      ensures Within(V(Nothing), bound + {p})
    {
      ghost var v := V(Nothing);
      FoMarked(v, p, proc, bound);
      hide Inv, Within;
      marked := marked + {p};
      extra := {};
      assert V(Nothing) == v.(marked := v.marked + {p}, extra := {});
      InvalidInv(V(Nothing), 0, 0);
    }

    // while (!GC_mark_some(0)) {}
    method RunToEnd(grow: nat -> bool, ghost bound: set<Obj>) returns (ok: bool)
      requires Valid() && state == MS_INVALID && dirty == {} && rootsDirty == {}
      modifies `marked, `depth, `state, `tooSmall, `objectsAreMarked, `scan, `stack, stack
      ensures stack == old(stack) || fresh(stack)
      ensures ok ==> Quiet() && old(marked) <= marked
      ensures FewRoots() ==> ok
      ensures ok && old(Within(V(Nothing), bound)) ==> Within(V(Nothing), bound)
    {
      hide Inv, Within, Layout.WellFormed, Shape, Valid, Left, WillAbort, FewRoots, RootCount;
      var i := 0;
      while true
        invariant Valid() && state != MS_NONE && state != MS_PUSH_RESCUERS
        invariant stack == old(stack) || fresh(stack)
        invariant old(marked) <= marked
        invariant old(Within(V(Nothing), bound)) ==> Within(V(Nothing), bound)
        decreases Left().unmarked, Left().rank, Left().blocksLeft, Left().work
      {
        FewRootsFit(grow(i));
        var r := MarkSome(grow(i), bound);
        if r == Abort {
          return false;
        }
        if r == Done {
          DoneIsQuiet();
          return true;
        }
        i := i + 1;
      }
    }

    lemma DoneIsQuiet()
      requires Valid() && state == MS_NONE && depth == 0 && dirty == {} && rootsDirty == {} && objectsAreMarked
      requires Inv(V(Nothing), MS_NONE, 0, L.statics + 1)
      ensures Quiet()
    {
    }

    // The mark stack overflowed: mark p after all and start over from the marked objects.
    method RecoverFo(p: Obj, proc: MarkProc, grow: nat -> bool, ghost bound: set<Obj>) returns (ok: bool)
      requires I(Nothing, 0, L.statics + 1) && state == MS_INVALID && p in L.block && proc != NoOrder
      requires extra <= {p} && depth == 0 && scan == 0 && objectsAreMarked && dirty == {} && rootsDirty == {}
      requires Within(V(Nothing), bound) && Seeds(L, mem, proc, p) <= bound
      modifies `marked, `depth, `state, `tooSmall, `objectsAreMarked, `scan, `stack, `extra, stack
      ensures stack == old(stack) || fresh(stack)
      ensures FewRoots() ==> ok
      ensures ok ==> Quiet() && old(marked) + {p} <= marked <= bound + {p}
      ensures ok ==> ReachSet(L, mem, Seeds(L, mem, proc, p)) <= marked
    {
      SetMarkBit(p, proc, bound);
      hide Inv, Valid, Shape, Layout.WellFormed, Seeds, ReachSet, Layout.HasDescr, FewRoots;
      ok := RunToEnd(grow, bound + {p});
      if ok {
        MarkedSeeds(V(Nothing), p, proc);
        QuietReach(V(Nothing), Seeds(L, mem, proc, p));
      }
    }

    // The mark stack did not overflow.
    method FinishFo(p: Obj, proc: MarkProc)
      requires I(Nothing, 0, L.statics + 1) && state == MS_NONE && p in L.block
      requires extra == if proc.PushesObject() && L.HasDescr(p) then {p} else {}
      requires depth == 0 && scan == 0 && objectsAreMarked && dirty == {} && rootsDirty == {}
      requires proc == IgnoreSelf ==> Seeds(L, mem, proc, p) <= marked
      modifies `extra
      ensures Quiet() && ReachSet(L, mem, Seeds(L, mem, proc, p)) <= marked
    {
      ghost var v := V(Nothing);
      FoTraced(v, p, proc);
      assert scan <= |L.blocks|;
      hide Inv, Layout.WellFormed, Seeds, ReachSet, Layout.HasDescr;
      extra := {};
      assert V(Nothing) == v.(extra := {});
      QuietReach(V(Nothing), Seeds(L, mem, proc, p));
    }

    // GC_MARK_FO: trace from p, usually without marking p itself.
    method MarkFo(p: Obj, proc: MarkProc, grow: nat -> bool) returns (ok: bool, overflow: bool)
      requires Quiet() && p in L.block
      modifies `marked, `depth, `state, `tooSmall, `objectsAreMarked, `scan, `stack, `extra, stack
      ensures stack == old(stack) || fresh(stack)
      ensures FewRoots() ==> ok
      ensures ok ==> Quiet()
      ensures ok ==> marked == old(marked) + ReachSet(L, mem, Seeds(L, mem, proc, p)) + if overflow then {p} else {}
      ensures ok && overflow ==> proc != NoOrder
      ensures ok && old(Spacious()) ==> Spacious() && !overflow
      ensures old(Crowded(p, proc)) ==> overflow
      ensures mem == old(mem)
    {
      assert Spacious() <==> |L.block.Keys - marked| < stack.Length;
      hide *;
      ok, overflow := TraceAndRecover(p, proc, grow);
      if ok && !overflow {
        StillSpacious(old(marked));
      }
    }

    method TraceAndRecover(p: Obj, proc: MarkProc, grow: nat -> bool) returns (ok: bool, overflow: bool)
      requires Quiet() && p in L.block
      modifies `marked, `depth, `state, `tooSmall, `objectsAreMarked, `scan, `stack, `extra, stack
      ensures stack == old(stack) || fresh(stack)
      ensures FewRoots() ==> ok
      ensures ok ==> Quiet()
      ensures ok ==> marked == old(marked) + ReachSet(L, mem, Seeds(L, mem, proc, p)) + if overflow then {p} else {}
      ensures ok && overflow ==> proc != NoOrder && !old(Spacious())
      ensures ok && !overflow ==> stack == old(stack)
      ensures old(Crowded(p, proc)) ==> overflow
      ensures mem == old(mem)
    {
      hide *;
      ghost var bound := marked + ReachSet(L, mem, Seeds(L, mem, proc, p));
      overflow := TraceFo(p, proc, bound);
      if overflow {
        ok := RecoverFo(p, proc, grow, bound);
      } else {
        FinishFo(p, proc);
        ok := true;
      }
    }

    lemma StillSpacious(before: set<Obj>)
      requires Quiet() && before <= marked
      ensures |L.block.Keys - before| < stack.Length ==> Spacious()
    {
      FewerUnmarked(L.block.Keys, before, marked);
    }

    lemma MarkedAlready(p: Obj, proc: MarkProc)
      requires Quiet() && p in marked
      ensures ReachSet(L, mem, Seeds(L, mem, proc, p)) <= marked
    {
      MarkedSeeds(V(Nothing), p, proc);
      QuietReach(V(Nothing), Seeds(L, mem, proc, p));
    }

    method TraceFo(p: Obj, proc: MarkProc, ghost bound: set<Obj>) returns (overflow: bool)
      requires Quiet() && p in L.block
      requires bound == marked + ReachSet(L, mem, Seeds(L, mem, proc, p))
      modifies `marked, `depth, `state, `tooSmall, `objectsAreMarked, `extra, stack
      ensures I(Nothing, 0, L.statics + 1) && extra == (if proc.PushesObject() && L.HasDescr(p) then {p} else {})
      ensures depth == 0 && objectsAreMarked && state == if overflow then MS_INVALID else MS_NONE
      ensures old(marked) <= marked <= bound && Within(V(Nothing), bound) && Seeds(L, mem, proc, p) <= bound
      ensures scan == 0 && dirty == {} && rootsDirty == {}
      ensures proc == IgnoreSelf ==> Seeds(L, mem, proc, p) <= marked
      ensures overflow ==> proc != NoOrder && !old(Spacious())
      ensures old(Crowded(p, proc)) ==> overflow
    {
      FoReady(p, proc, bound);
      hide *;
      RunMarkProc(p, proc, bound);
      assert proc == NoOrder || old(Spacious()) ==> depth == 0 || Ample();
      Drain(bound);
      InBound(V(Nothing), bound);
      overflow := state != MS_NONE;
    }

    lemma FoReady(p: Obj, proc: MarkProc, bound: set<Obj>)
      requires Quiet() && p in L.block
      requires bound == marked + ReachSet(L, mem, Seeds(L, mem, proc, p))
      ensures Within(V(Nothing).(extra := if proc.PushesObject() then {p} else {}), bound)
      ensures Seeds(L, mem, proc, p) <= bound
      ensures dirty == {} && rootsDirty == {} && scan == 0 && objectsAreMarked && state == MS_NONE
    {
      FoBounds(V(Nothing), p, proc, bound);
    }
  }

  lemma InBound(v: View, bound: set<Obj>)
    requires Within(v, bound)
    ensures v.marked <= bound
  {
  }
}
