/** The values the marker works on, and the invariant that the source attaches to its mark states.
 *
 *  An area is a run of words the marker scans: one heap object, one static root segment, or the
 *  thread stacks and registers taken together.  `resolve` is the composite of the plausibility test,
 *  the header lookup and the displacement test: it says which words the collector takes for pointers,
 *  and to which object.
 */
module MarkDefs {
  import opened Common

  type Obj = nat
  type Word = int

  // Default configuration of the source, 64-bit words.
  const WORD_BYTES: nat := 8
  const HBLK_WORDS: nat := 512
  const SPLIT_RANGE_WORDS: nat := 128
  const INITIAL_MARK_STACK_SIZE: nat := HBLKSIZE
  const GC_MARK_STACK_DISCARDS: nat := INITIAL_MARK_STACK_SIZE / 8

  datatype Area = Heap(o: Obj) | Static(i: nat) | Stacks

  datatype Block = Free | Used(kind: Kind, objs: seq<Obj>)

  datatype Layout = Layout(
    blocks: seq<Block>,          // in address order
    block: map<Obj, nat>,        // the block an object lies in
    words: map<Area, nat>,       // size of every area
    resolve: map<Word, Obj>,
    statics: nat,                // number of static root segments
    offset: seq<nat>,            // where in its page each of them starts, in words
    leastHa: Word,
    greatestHa: Word)
  {
    ghost predicate WellFormed() {
      && (forall o <- block :: block[o] < |blocks| && blocks[block[o]].Used? && o in blocks[block[o]].objs)
      && (forall b, j :: 0 <= b < |blocks| && blocks[b].Used? && 0 <= j < |blocks[b].objs| ==>
            blocks[b].objs[j] in block && block[blocks[b].objs[j]] == b)
      && (forall b :: 0 <= b < |blocks| && blocks[b].Used? ==> |blocks[b].objs| <= INITIAL_MARK_STACK_SIZE / 2)
      && (forall w <- resolve :: resolve[w] in block && leastHa <= w < greatestHa)
      && (forall a :: a in words <==> IsArea(a))
      && (forall o <- block :: HasDescr(o) ==> words[Heap(o)] > 0)
      && |offset| == statics && (forall i :: 0 <= i < statics ==> offset[i] < HBLK_WORDS)
    }

    predicate IsArea(a: Area) {
      match a
      case Heap(o) => o in block
      case Static(i) => i < statics
      case Stacks => true
    }

    predicate HasDescr(o: Obj)
      requires o in block
    {
      var b := block[o];
      b < |blocks| && blocks[b].Used? && blocks[b].kind.HasDescr()
    }

    predicate IsUncollectable(o: Obj)
      requires o in block
    {
      var b := block[o];
      b < |blocks| && blocks[b].Used? && blocks[b].kind.IsUncollectable()
    }

    predicate Plausible(w: Word) { leastHa <= w < greatestHa }
  }

  // A mark stack entry: the words lo..hi of an area still have to be examined.
  datatype Entry = Entry(area: Area, lo: nat, hi: nat)

  // The part of a range a marker is busy with: words lo..hi, and word d put off until last.
  datatype Hand = Nothing | Hand(area: Area, lo: int, hi: int, d: int)

  datatype MarkState =
    | MS_NONE | MS_PUSH_RESCUERS | MS_PUSH_UNCOLLECTABLE | MS_ROOTS_PUSHED | MS_PARTIALLY_INVALID | MS_INVALID

  // Everything the invariant speaks about.
  datatype View = View(
    L: Layout, mem: map<Area, seq<Word>>, marked: set<Obj>,
    st: seq<Entry>, hand: Hand,
    dirty: set<nat>, grungy: set<nat>, rootsDirty: set<Area>,
    extra: set<Obj>)             // finalizable objects being traced without being marked

  predicate Covers(e: Entry, a: Area, k: int) {
    e.area == a && e.lo <= k < e.hi
  }

  predicate InHand(h: Hand, a: Area, k: int) {
    h.Hand? && h.area == a && (h.lo <= k < h.hi || k == h.d)
  }

  ghost predicate OnStack(st: seq<Entry>, a: Area, k: int) {
    exists i :: 0 <= i < |st| && Covers(st[i], a, k)
  }

  predicate ValidEntry(L: Layout, e: Entry) {
    e.area in L.words && e.lo < e.hi <= L.words[e.area]
  }

  ghost predicate Shape(v: View) {
    && v.L.WellFormed()
    && v.mem.Keys == v.L.words.Keys
    && (forall a <- v.mem :: |v.mem[a]| == v.L.words[a])
    && v.marked <= v.L.block.Keys
    && v.extra <= v.L.block.Keys
    && (forall i :: 0 <= i < |v.st| ==> ValidEntry(v.L, v.st[i]))
  }

  // Word k of area a needs no more attention: it is no pointer, or it points to a marked object,
  // or it is inside a range that is still pending.
  ghost predicate Settled(v: View, a: Area, k: int)
    requires a in v.mem && 0 <= k < |v.mem[a]|
  {
    || v.mem[a][k] !in v.L.resolve
    || v.L.resolve[v.mem[a][k]] in v.marked
    || OnStack(v.st, a, k)
    || InHand(v.hand, a, k)
  }

  // Roots are numbered: the static segments, then the stacks.
  function RootNo(L: Layout, a: Area): nat
    requires !a.Heap?
  {
    if a.Static? then a.i else L.statics
  }

  ghost predicate Due(v: View, a: Area) {
    a.Heap? ==> a.o in v.L.block && v.L.HasDescr(a.o) && (a.o in v.marked || a.o in v.extra)
  }

  // What each mark state lets the invariant miss (include/private/gc_pmark.h:453-480): `pos` plays
  // scan_ptr, counted in blocks, and `roots` counts the root areas already pushed.
  ghost predicate Exempt(v: View, m: MarkState, pos: nat, roots: nat, a: Area)
    requires a.Heap? ==> a.o in v.L.block
  {
    || m == MS_INVALID
    || (match a
        case Heap(o) =>
          var b := v.L.block[o];
          || b in v.dirty
          || (b >= pos && o !in v.extra &&
              match m
              case MS_PUSH_RESCUERS => b in v.grungy
              case MS_PUSH_UNCOLLECTABLE => v.L.IsUncollectable(o)
              case MS_PARTIALLY_INVALID => true
              case _ => false)
        case _ => a in v.rootsDirty || RootNo(v.L, a) >= roots)
  }

  // Invariant I of the source, relative to a mark state.
  ghost predicate Inv(v: View, m: MarkState, pos: nat, roots: nat) {
    && Shape(v)
    && forall a, k :: a in v.mem && Due(v, a) && !Exempt(v, m, pos, roots, a) && 0 <= k < |v.mem[a]| ==>
         Settled(v, a, k)
  }

  ghost predicate MayScan(v: View, bound: set<Obj>, a: Area) {
    a.Heap? ==> a.o in bound + v.extra && a.o in v.L.block && v.L.HasDescr(a.o)
  }

  // An upper bound on what marking may reach: `bound` contains all marked objects and everything
  // the pending ranges and the roots lead to, and is closed under pointers.
  ghost predicate Within(v: View, bound: set<Obj>) {
    && v.marked <= bound
    && (forall i :: 0 <= i < |v.st| ==> MayScan(v, bound, v.st[i].area))
    && (v.hand.Hand? ==> MayScan(v, bound, v.hand.area))
    && (forall a, k ::
          (a in v.mem && MayScan(v, bound, a) && 0 <= k < |v.mem[a]| && v.mem[a][k] in v.L.resolve) ==>
            v.L.resolve[v.mem[a][k]] in bound)
  }

  /****** reachability ******/

  // The object o is pointed to by some word of area a.
  ghost predicate PointsTo(L: Layout, mem: map<Area, seq<Word>>, a: Area, o: Obj) {
    a in mem && exists k :: 0 <= k < |mem[a]| && mem[a][k] in L.resolve && L.resolve[mem[a][k]] == o
  }

  // p is a chain of objects, each one pointed to by the one before; only objects with pointers have successors.
  ghost predicate Chain(L: Layout, mem: map<Area, seq<Word>>, p: seq<Obj>) {
    forall i {:trigger p[i]} :: 0 <= i < |p| - 1 ==>
      p[i] in L.block && L.HasDescr(p[i]) && PointsTo(L, mem, Heap(p[i]), p[i + 1])
  }

  ghost predicate ReachesBy(L: Layout, mem: map<Area, seq<Word>>, seeds: set<Obj>, p: seq<Obj>, o: Obj) {
    |p| > 0 && p[0] in seeds && p[|p| - 1] == o && Chain(L, mem, p)
  }

  // o is reachable from an object in seeds by a chain of zero or more pointers.
  ghost predicate Reachable(L: Layout, mem: map<Area, seq<Word>>, seeds: set<Obj>, o: Obj) {
    exists p :: ReachesBy(L, mem, seeds, p, o)
  }

  // The objects the roots point to directly.
  ghost function RootTargets(L: Layout, mem: map<Area, seq<Word>>): (s: set<Obj>)
    ensures forall o :: o in s <==> o in L.block && exists a: Area :: !a.Heap? && PointsTo(L, mem, a, o)
  {
    set o | o in L.block && exists a: Area :: !a.Heap? && PointsTo(L, mem, a, o)
  }

  ghost function ReachSet(L: Layout, mem: map<Area, seq<Word>>, seeds: set<Obj>): (s: set<Obj>)
    ensures forall o :: o in s <==> o in L.block && Reachable(L, mem, seeds, o)
  {
    set o | o in L.block && Reachable(L, mem, seeds, o)
  }

  // A set that contains the seeds and is closed under pointers contains everything reachable.
  lemma {:induction false} ClosedContainsReachable(
    L: Layout, mem: map<Area, seq<Word>>, seeds: set<Obj>, s: set<Obj>, p: seq<Obj>, o: Obj)
    requires seeds <= s
    requires forall x, y {:trigger PointsTo(L, mem, Heap(x), y)} ::
               x in s && x in L.block && L.HasDescr(x) && PointsTo(L, mem, Heap(x), y) ==> y in s
    requires ReachesBy(L, mem, seeds, p, o)
    ensures o in s
    decreases |p|
  {
    if |p| > 1 {
      var q := p[..|p| - 1];
      assert forall i :: 0 <= i < |q| ==> q[i] == p[i];
      assert Chain(L, mem, q);
      ClosedContainsReachable(L, mem, seeds, s, q, p[|p| - 2]);
      assert PointsTo(L, mem, Heap(p[|p| - 2]), p[|p| - 1]);
    }
  }

  lemma ReachableStep(L: Layout, mem: map<Area, seq<Word>>, seeds: set<Obj>, x: Obj, y: Obj)
    requires Reachable(L, mem, seeds, x) && x in L.block && L.HasDescr(x) && PointsTo(L, mem, Heap(x), y)
    ensures Reachable(L, mem, seeds, y)
  {
    var p :| ReachesBy(L, mem, seeds, p, x);
    var q := p + [y];
    forall i | 0 <= i < |q| - 1
      ensures q[i] in L.block && L.HasDescr(q[i]) && PointsTo(L, mem, Heap(q[i]), q[i + 1])
    {
      assert q[i] == p[i];
      if i < |p| - 1 { assert q[i + 1] == p[i + 1]; }
    }
    assert ReachesBy(L, mem, seeds, q, y);
  }

  lemma SeedReachable(L: Layout, mem: map<Area, seq<Word>>, seeds: set<Obj>, x: Obj)
    requires x in seeds
    ensures Reachable(L, mem, seeds, x)
  {
    assert ReachesBy(L, mem, seeds, [x], x);
  }

  // Once marking is over and nothing was written meanwhile, every object that the roots or any
  // marked object leads to is marked.
  lemma MarkedIsReachClosed(v: View, m: MarkState, roots: nat)
    requires m == MS_NONE || m == MS_ROOTS_PUSHED
    requires Inv(v, m, 0, roots) && roots > v.L.statics
    requires v.st == [] && v.hand == Nothing && v.dirty == {} && v.rootsDirty == {}
    ensures RootTargets(v.L, v.mem) <= v.marked
    ensures forall o :: Reachable(v.L, v.mem, RootTargets(v.L, v.mem) + v.marked, o) ==> o in v.marked
  {
    var seeds := RootTargets(v.L, v.mem) + v.marked;
    forall o | o in RootTargets(v.L, v.mem) ensures o in v.marked {
      var a: Area :| !a.Heap? && PointsTo(v.L, v.mem, a, o);
      var k :| 0 <= k < |v.mem[a]| && v.mem[a][k] in v.L.resolve && v.L.resolve[v.mem[a][k]] == o;
      assert Settled(v, a, k);
    }
    forall x, y | x in v.marked && x in v.L.block && v.L.HasDescr(x) && PointsTo(v.L, v.mem, Heap(x), y)
      ensures y in v.marked
    {
      var a := Heap(x);
      var k :| 0 <= k < |v.mem[a]| && v.mem[a][k] in v.L.resolve && v.L.resolve[v.mem[a][k]] == y;
      assert Settled(v, a, k);
    }
    forall o | Reachable(v.L, v.mem, seeds, o) ensures o in v.marked {
      var p :| ReachesBy(v.L, v.mem, seeds, p, o);
      ClosedContainsReachable(v.L, v.mem, seeds, v.marked, p, o);
    }
  }

  /****** how the invariant moves ******/

  lemma OnStackPush(st: seq<Entry>, e: Entry, a: Area, k: int)
    ensures OnStack(st + [e], a, k) <==> OnStack(st, a, k) || Covers(e, a, k)
  {
    if OnStack(st, a, k) {
      var i :| 0 <= i < |st| && Covers(st[i], a, k);
      assert (st + [e])[i] == st[i];
    }
    if Covers(e, a, k) { assert (st + [e])[|st|] == e; }
  }

  // Marking an object and pushing all its words keeps the invariant.
  lemma InvMarkPush(v: View, m: MarkState, pos: nat, roots: nat, o: Obj)
    requires Inv(v, m, pos, roots) && o in v.L.block && v.L.HasDescr(o)
    ensures Inv(v.(marked := v.marked + {o}, st := v.st + [Entry(Heap(o), 0, v.L.words[Heap(o)])]), m, pos, roots)
  {
    var e := Entry(Heap(o), 0, v.L.words[Heap(o)]);
    var w := v.(marked := v.marked + {o}, st := v.st + [e]);
    forall a, k | a in w.mem && Due(w, a) && !Exempt(w, m, pos, roots, a) && 0 <= k < |w.mem[a]|
      ensures Settled(w, a, k)
    {
      OnStackPush(v.st, e, a, k);
      if a != Heap(o) { assert Due(v, a) && !Exempt(v, m, pos, roots, a); assert Settled(v, a, k); }
    }
  }

  // Marking an object without pointers keeps it too.
  lemma InvMarkLeaf(v: View, m: MarkState, pos: nat, roots: nat, o: Obj)
    requires Inv(v, m, pos, roots) && o in v.L.block && !v.L.HasDescr(o)
    ensures Inv(v.(marked := v.marked + {o}), m, pos, roots)
  {
    var w := v.(marked := v.marked + {o});
    forall a, k | a in w.mem && Due(w, a) && !Exempt(w, m, pos, roots, a) && 0 <= k < |w.mem[a]|
      ensures Settled(w, a, k)
    {
      assert Due(v, a) && !Exempt(v, m, pos, roots, a);
      assert Settled(v, a, k);
    }
  }

  // The words pending on the stack or in the hand may be replaced by others that cover at least
  // the words still unresolved.
  lemma InvRework(v: View, w: View, m: MarkState, pos: nat, roots: nat)
    requires Inv(v, m, pos, roots) && Shape(w)
    requires w == v.(st := w.st, hand := w.hand)
    requires forall a, k :: a in v.mem && 0 <= k < |v.mem[a]| && (OnStack(v.st, a, k) || InHand(v.hand, a, k)) ==>
               Settled(w, a, k)
    ensures Inv(w, m, pos, roots)
  {
    forall a, k | a in w.mem && Due(w, a) && !Exempt(w, m, pos, roots, a) && 0 <= k < |w.mem[a]|
      ensures Settled(w, a, k)
    {
      assert Due(v, a) && !Exempt(v, m, pos, roots, a);
      assert Settled(v, a, k);
    }
  }
}
