/** Mostly-concurrent marking with the dirty bits as they come about: writes fault on protected pages, bits are
 *  hashed and shared, system pages are larger than heap blocks, and GC_initiate_gc reads what the bits say.
 */
module WriteBarrier {
  import opened Common
  import opened MarkDefs
  import opened Marker
  import DirtyBits
  import HeapBlocks

  // Only the blocks with pointers need be known to be dirty.
  lemma InvReported(v: View, m: MarkState, pos: nat, roots: nat, dirty: set<nat>)
    requires Inv(v, m, pos, roots)
    requires forall b <- v.dirty :: b < |v.L.blocks| && v.L.blocks[b].Used? && v.L.blocks[b].kind.HasDescr() ==>
               b in dirty
    ensures Inv(v.(dirty := dirty), m, pos, roots)
  {
    var w := v.(dirty := dirty);
    forall a, k | a in w.mem && Due(w, a) && !Exempt(w, m, pos, roots, a) && 0 <= k < |w.mem[a]|
      ensures Settled(w, a, k)
    {
      assert Due(v, a) && !Exempt(v, m, pos, roots, a);
      assert Settled(v, a, k);
    }
  }

  datatype Op = WriteOp(a: Area, k: nat, w: Word) | MarkOp(grow: bool) | BeginOp(full: bool)

  // The memory after the writes among the operations.
  function Applied(mem: map<Area, seq<Word>>, ops: seq<Op>): map<Area, seq<Word>> {
    if ops == [] then mem
    else
      var before, op := Applied(mem, ops[..|ops| - 1]), ops[|ops| - 1];
      if op.WriteOp? && op.a in before && op.k < |before[op.a]| then before[op.a := before[op.a][op.k := op.w]]
      else before
  }

  // How many of the operations are units of marking work.
  function Marks(ops: seq<Op>): nat {
    if ops == [] then 0 else Marks(ops[..|ops| - 1]) + if ops[|ops| - 1].MarkOp? then 1 else 0
  }

  lemma MarksNext(ops: seq<Op>, i: nat)
    requires i < |ops|
    ensures Marks(ops[..i + 1]) == Marks(ops[..i]) + if ops[i].MarkOp? then 1 else 0
  {
    assert ops[..i + 1][..i] == ops[..i];
  }

  lemma NothingApplied(mem: map<Area, seq<Word>>, ops: seq<Op>)
    ensures Applied(mem, ops[..0]) == mem && Marks(ops[..0]) == 0
  {
  }

  lemma AppliedNext(mem: map<Area, seq<Word>>, ops: seq<Op>, i: nat)
    requires i < |ops|
    ensures var before, op := Applied(mem, ops[..i]), ops[i];
            Applied(mem, ops[..i + 1]) ==
            if op.WriteOp? && op.a in before && op.k < |before[op.a]| then before[op.a := before[op.a][op.k := op.w]]
            else before
  {
    assert ops[..i + 1][..i] == ops[..i];
  }

  class Barrier {
    const m: Marker
    const vdb: DirtyBits.Vdb
    const at: map<nat, nat>                // where the blocks of the layout are
    const page: (Obj, nat) -> nat          // the heap block that the words of objects are in
    ghost var units: nat                   // calls of GC_mark_some

    // The objects lie in blocks that are in use.
    ghost predicate Placed()
      reads vdb
    {
      && (forall b :: 0 <= b < |m.L.blocks| && m.L.blocks[b].Used? ==>
            && b in at && vdb.view.InUse(at[b])
            && (m.L.blocks[b].kind.HasDescr() ==> vdb.view.HasPointers(at[b])))
      && (forall o, k :: o in m.L.block && Heap(o) in m.L.words && 0 <= k < m.L.words[Heap(o)] && m.L.block[o] in at ==>
            HeapBlocks.Covers(vdb.view.size, at[m.L.block[o]], page(o, k)))
    }

    // Some page of the block is among those written.
    ghost predicate Touched(size: map<nat, nat>, written: set<nat>, b: nat) {
      b in at && exists p :: p in written && HeapBlocks.Covers(size, at[b], p)
    }

    // Every block that the marker takes for dirty was written.
    ghost predicate Linked(size: map<nat, nat>, dirty: set<nat>, written: set<nat>) {
      forall b <- dirty :: b < |m.L.blocks| && m.L.blocks[b].Used? ==> Touched(size, written, b)
    }

    ghost predicate Valid()
      reads m, m.stack, vdb, vdb.dirty
    {
      m.incremental && m.Valid() && m.L.WellFormed() && vdb.Valid() && Placed() &&
          Linked(vdb.view.size, m.dirty, vdb.written)
    }

    constructor (marker: Marker, bits: DirtyBits.Vdb, places: map<nat, nat>, pageOf: (Obj, nat) -> nat)
      ensures m == marker && vdb == bits && at == places && page == pageOf && units == 0
    {
      m, vdb, at, page, units := marker, bits, places, pageOf, 0;
    }

    // GC_block_was_dirty
    method BlockWasDirty(a: nat) returns (r: bool)
      requires vdb.Valid() && a in vdb.view.size
      ensures r <==> exists p :: HeapBlocks.Covers(vdb.view.size, a, p) && vdb.WasDirty(p)
    {
      var p := a;
      while p < a + vdb.view.size[a] && !vdb.WasDirty(p)
        invariant a <= p <= a + vdb.view.size[a]
        invariant forall q :: a <= q < p ==> !vdb.WasDirty(q)
      {
        p := p + 1;
      }
      r := p < a + vdb.view.size[a];
      assert r ==> HeapBlocks.Covers(vdb.view.size, a, p);
    }

    // What the dirty bits say of all blocks.
    method Reported() returns (s: set<nat>)
      requires vdb.Valid() && Placed()
      ensures forall b :: b in s <==> 0 <= b < |m.L.blocks| && m.L.blocks[b].Used?
                                       && exists p :: HeapBlocks.Covers(vdb.view.size, at[b], p) && vdb.WasDirty(p)
    {
      s := {};
      for b := 0 to |m.L.blocks|
        invariant forall c :: c in s <==> 0 <= c < b && m.L.blocks[c].Used?
                                           && exists p :: HeapBlocks.Covers(vdb.view.size, at[c], p) && vdb.WasDirty(p)
      {
        if m.L.blocks[b].Used? {
          var r := BlockWasDirty(at[b]);
          if r { s := s + {b}; }
        }
      }
    }

    lemma WritePlace(a: Area, k: nat)
      requires Valid() && a in m.mem && k < |m.mem[a]| && a.Heap?
      ensures a.o in m.L.block && m.L.block[a.o] in at && vdb.view.InUse(at[m.L.block[a.o]])
      ensures HeapBlocks.Covers(vdb.view.size, at[m.L.block[a.o]], page(a.o, k))
    {
      assert m.L.IsArea(a);
    }

    lemma LinkedMore(size: map<nat, nat>, dirty: set<nat>, written: set<nat>, p: nat, b: nat)
      requires Linked(size, dirty, written) && b in at && HeapBlocks.Covers(size, at[b], p)
      ensures Linked(size, dirty + {b}, written + {p})
    {
      forall c | c in dirty + {b} && c < |m.L.blocks| && m.L.blocks[c].Used? ensures Touched(size, written + {p}, c) {
        if c in dirty {
          var q :| q in written && HeapBlocks.Covers(size, at[c], q);
          assert q in written + {p};
        } else {
          assert p in written + {p};
        }
      }
    }

    // The program writes a word.
    method Write(a: Area, k: nat, w: Word)
      requires Valid() && a in m.mem && k < |m.mem[a]|
      modifies m`mem, m`dirty, m`rootsDirty, vdb, vdb.dirty
      ensures Valid() && m.mem == old(m.mem)[a := old(m.mem)[a][k := w]] && vdb.view == old(vdb.view)
    {
      hide DirtyBits.Safe, Inv, Shape, HeapBlocks.Tiled, Touched;
      if a.Heap? {
        WritePlace(a, k);
        var p := page(a.o, k);
        LinkedMore(vdb.view.size, m.dirty, vdb.written, p, m.L.block[a.o]);
        vdb.Write(p);
        m.Write(a, k, w);
      } else {
        m.Write(a, k, w);
      }
    }

    // The dirty bits report every block with pointers that was written.
    lemma AllReported(size: map<nat, nat>, dirty: set<nat>, written: set<nat>, s: set<nat>)
      requires Linked(size, dirty, written) && vdb.Valid() && Placed() && size == vdb.view.size
      requires forall p: nat :: p in vdb.view.Pointers() && p in written ==> vdb.WasDirty(p)
      requires forall b :: 0 <= b < |m.L.blocks| && m.L.blocks[b].Used? ==>
                 (exists p :: HeapBlocks.Covers(size, at[b], p) && vdb.WasDirty(p)) ==> b in s
      ensures forall b <- dirty :: b < |m.L.blocks| && m.L.blocks[b].Used? && m.L.blocks[b].kind.HasDescr() ==> b in s
    {
      hide DirtyBits.Safe, DirtyBits.Vdb.WasDirty;
      forall b | b in dirty && b < |m.L.blocks| && m.L.blocks[b].Used? && m.L.blocks[b].kind.HasDescr() ensures b in s {
        var p :| p in written && HeapBlocks.Covers(size, at[b], p);
        assert vdb.view.PtrPage(at[b], p);
        assert p in vdb.view.Pointers();
      }
    }

    // GC_initiate_gc in an incremental collector: the bits are read, and what they report, which may be more than
    // what was written, is what the scan for rescuers will look at.  For a full collection the marks are cleared
    // first, and marking starts in MS_INVALID.
    method Begin(full: bool)
      requires Valid() && (full || m.state in {MS_NONE, MS_INVALID})
      modifies m`marked, m`objectsAreMarked, m`depth
      modifies m`state, m`scan, m`dirty, m`grungy, m`rootsDirty, vdb, vdb.dirty, vdb.grungy
      ensures Valid() && m.dirty == {} && m.rootsDirty == {} && vdb.written == {} && vdb.view == old(vdb.view)
      ensures m.state == if !full && old(m.state) == MS_NONE then MS_PUSH_RESCUERS else MS_INVALID
      ensures m.marked == if full then set o <- old(m.marked) | m.L.IsUncollectable(o) else old(m.marked)
      ensures full ==> m.depth == 0 && !m.objectsAreMarked
      ensures forall b <- old(m.dirty) :: b < |m.L.blocks| && m.L.blocks[b].Used? && m.L.blocks[b].kind.HasDescr() ==>
                b in m.grungy
    {
      hide DirtyBits.Safe, Inv, Shape, HeapBlocks.Tiled, DirtyBits.Vdb.WasDirty, Touched, Marker.Valid, Marker.Base;
      BaseIsKept();
      if full {
        m.InvalidateMarkState();
        m.ClearMarks();
      }
      ReadBits();
      m.InitiateGc();
    }

    lemma BaseIsKept()
      requires Valid()
      ensures m.Base()
    {
      hide Inv, Shape;
    }

    // GC_read_dirty, and what GC_page_was_dirty then says of the blocks.
    method ReadBits()
      requires Valid()
      modifies m`dirty, vdb, vdb.dirty, vdb.grungy
      ensures m.Base() && m.Valid() && vdb.Valid() && Placed() && vdb.written == {} && vdb.view == old(vdb.view)
      ensures forall b <- old(m.dirty) :: b < |m.L.blocks| && m.L.blocks[b].Used? && m.L.blocks[b].kind.HasDescr() ==>
                b in m.dirty
    {
      hide DirtyBits.Safe, Inv, Shape, HeapBlocks.Tiled, DirtyBits.Vdb.WasDirty;
      ghost var v, written := m.V(Nothing), vdb.written;
      vdb.ReadDirty();
      var s := Reported();
      AllReported(vdb.view.size, m.dirty, written, s);
      InvReported(v, m.Mode(), m.scan, if m.state in {MS_NONE, MS_ROOTS_PUSHED} then m.L.statics + 1 else 0, s);
      m.dirty := s;
      assert m.V(Nothing) == v.(dirty := s);
      SameShape(v, s);
    }

    lemma SameShape(v: View, dirty: set<nat>)
      requires Shape(v)
      ensures Shape(v.(dirty := dirty))
    {
    }

    // A unit of marking work.
    method Mark(grow: bool) returns (r: Outcome)
      requires Valid()
      modifies `units, m`marked, m`depth, m`state, m`tooSmall, m`objectsAreMarked, m`scan, m`stack, m.stack
      ensures m.stack == old(m.stack) || fresh(m.stack)
      ensures units == old(units) + 1
      ensures r == Abort <==> old(m.WillAbort(grow))
      ensures r != Abort ==> Valid()
      ensures r == Done ==>
                m.state == MS_NONE && m.depth == 0 && m.objectsAreMarked &&
                    Inv(m.V(Nothing), MS_NONE, 0, m.L.statics + 1)
      ensures old(m.state) != MS_NONE && r == More ==> m.state != MS_NONE && Less(m.Left(), old(m.Left()))
    {
      hide DirtyBits.Safe, DirtyBits.Vdb.Valid, Inv, Shape, Layout.WellFormed, HeapBlocks.Tiled, HeapBlocks.Covers,
           Marker.Valid, Marker.WillAbort, Marker.Left, Less, Touched;
      r := m.MarkSome(grow, {});
      units := units + 1;
    }

    // The steps of a mark phase until it is done.
    method MarkOn(grow: nat -> bool) returns (r: Outcome)
      requires Valid() && m.state != MS_NONE
      modifies `units, m`marked, m`depth, m`state, m`tooSmall, m`objectsAreMarked, m`scan, m`stack, m.stack
      ensures m.stack == old(m.stack) || fresh(m.stack)
      ensures units >= old(units) && (r == Done || r == Abort)
      ensures m.VeryFewRoots() ==> r == Done
      ensures r == Done ==> Valid() && m.state == MS_NONE && m.depth == 0 && m.objectsAreMarked
      ensures r == Done ==> Inv(m.V(Nothing), MS_NONE, 0, m.L.statics + 1)
    {
      hide *;
      var i := 0;
      r := More;
      while r == More
        invariant m.stack == old(m.stack) || fresh(m.stack)
        invariant m.VeryFewRoots() ==> r != Abort
        invariant units >= old(units)
        invariant r == More ==> Valid() && m.state != MS_NONE
        invariant r == Done ==> Valid() && m.state == MS_NONE && m.depth == 0 && m.objectsAreMarked
        invariant r == Done ==> Inv(m.V(Nothing), MS_NONE, 0, m.L.statics + 1)
        decreases r == More, m.Left().unmarked, m.Left().rank, m.Left().blocksLeft, m.Left().work
      {
        ghost var before := m.Left();
        Fits(grow(i));
        r := Mark(grow(i));
        if r == More { IsLess(m.Left(), before); }
        i := i + 1;
      }
    }

    // Mostly-concurrent marking with real dirty bits: after any interleaving of writes, units of marking work and
    // starts of collections, the phase in progress is finished, the bits are read, and marking once more without
    // writes ends with everything reachable marked.
    method MostlyConcurrent(ops: seq<Op>, grow: nat -> bool) returns (r: Outcome)
      requires Valid()
      requires forall op <- ops :: op.WriteOp? ==> op.a in m.mem && op.k < |m.mem[op.a]|
      modifies `units, m, m.stack, vdb, vdb.dirty, vdb.grungy
      ensures r == Done || r == Abort
      ensures r == Done ==> units >= old(units) + Marks(ops)
      ensures m.VeryFewRoots() ==> r == Done
      ensures r == Done ==> Valid() && m.Complete() && m.Quiet() && m.mem == Applied(old(m.mem), ops)
    {
      hide *;
      NothingApplied(m.mem, ops);
      for i := 0 to |ops|
        invariant m.mem == Applied(old(m.mem), ops[..i]) && units == old(units) + Marks(ops[..i])
        invariant Valid() && (m.stack == old(m.stack) || fresh(m.stack))
        invariant m.mem.Keys == old(m.mem.Keys) && forall a <- m.mem :: |m.mem[a]| == |old(m.mem)[a]|
      {
        AppliedNext(old(m.mem), ops, i);
        MarksNext(ops, i);
        match ops[i] {
          case WriteOp(a, k, w) => Write(a, k, w);
          case MarkOp(g) =>
            Fits(g);
            r := Mark(g);
            if r == Abort { return; }
          case BeginOp(full) =>
            if full || m.state == MS_NONE { Begin(full); }
        }
      }
      assert ops[..|ops|] == ops;
      if m.state != MS_NONE {
        r := MarkOn(grow);
        if r == Abort { return; }
      }
      Begin(false);
      r := MarkOn(grow);
      if r == Done {
        Ends();
      }
    }

    lemma Fits(grow: bool)
      requires Valid()
      ensures m.VeryFewRoots() ==> !m.WillAbort(grow)
    {
      hide Inv, Shape, Marker.WillAbort;
      m.FewRootsFit(grow);
    }

    lemma Ends()
      requires Valid() && m.state == MS_NONE && m.depth == 0 && m.objectsAreMarked && m.dirty == {}
      requires m.rootsDirty == {}
      requires Inv(m.V(Nothing), MS_NONE, 0, m.L.statics + 1)
      ensures m.Complete() && m.Quiet()
    {
      hide Inv, Marker.Quiet, Marker.Complete;
      m.DoneIsComplete();
      m.DoneIsQuiet();
    }
  }
}
