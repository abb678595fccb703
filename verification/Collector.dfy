/** The drivers of the mark phase in alloc.c: world-stopped marking, incremental work between
 *  allocations, and full collections.  Sweeping and finalization after a mark phase are not part of
 *  this module.
 */
module Collector {
  import opened Common
  import opened MarkDefs
  import opened Marker

  const GC_RATE: nat := 10
  const MAX_PRIOR_ATTEMPTS: nat := 1

  // What a sequence of mutator writes and units of marking work may do to the collector.
  datatype Op = WriteOp(a: Area, k: nat, w: Word) | MarkOp(grow: bool)

  datatype Count = Count(units: nat, deficit: nat, polls: nat)

  // The objects reachable from the roots, or from uncollectable objects that are marked.
  ghost function Live(L: Layout, mem: map<Area, seq<Word>>, marked: set<Obj>): set<Obj>
    requires marked <= L.block.Keys
  {
    ReachSet(L, mem, RootTargets(L, mem) + Kept(L, marked))
  }

  // The marks that GC_clear_marks leaves.
  ghost function Kept(L: Layout, marked: set<Obj>): set<Obj>
    requires marked <= L.block.Keys
  {
    set o <- marked | L.IsUncollectable(o)
  }

  // Everything reachable from the given seeds bounds what marking can reach.
  lemma ReachBounds(v: View, seeds: set<Obj>)
    requires Shape(v) && v.st == [] && v.hand == Nothing && v.extra == {}
    requires v.marked <= seeds && RootTargets(v.L, v.mem) <= seeds <= v.L.block.Keys
    ensures Within(v, ReachSet(v.L, v.mem, seeds))
  {
    var bound := ReachSet(v.L, v.mem, seeds);
    forall o | o in seeds ensures o in bound {
      SeedReachable(v.L, v.mem, seeds, o);
    }
    forall a, k | a in v.mem && MayScan(v, bound, a) && 0 <= k < |v.mem[a]| && v.mem[a][k] in v.L.resolve
      ensures v.L.resolve[v.mem[a][k]] in bound
    {
      var o := v.L.resolve[v.mem[a][k]];
      assert o in v.L.block by {
        ResolveInBlock(v.L, v.mem[a][k]);
      }
      assert PointsTo(v.L, v.mem, a, o);
      if a.Heap? {
        ReachableStep(v.L, v.mem, seeds, a.o, o);
      } else {
        assert o in RootTargets(v.L, v.mem);
      }
    }
  }

  class Collector {
    const m: Marker
    const timeLimited: bool
    var nAttempts: nat
    var deficit: nat
    var isFull: bool
    var polls: nat                 // how often stop functions have been asked

    ghost var units: nat           // calls of GC_mark_some

    constructor (marker: Marker, limited: bool)
      ensures m == marker && timeLimited == limited && nAttempts == 0 && deficit == 0 && !isFull && polls == 0
      ensures units == 0
    {
      m, timeLimited, nAttempts, deficit, isFull, polls, units := marker, limited, 0, 0, false, 0, 0;
    }

    // GC_mark_some, counted.
    method MarkUnit(grow: bool, ghost bound: set<Obj>) returns (r: Outcome)
      requires m.Valid() && m.state != MS_NONE
      modifies `units, m`marked, m`depth, m`state, m`tooSmall, m`objectsAreMarked, m`scan, m`stack, m.stack
      ensures units == old(units) + 1
      ensures m.stack == old(m.stack) || fresh(m.stack)
      ensures !grow ==> m.stack == old(m.stack)
      ensures (old(m.state) != MS_PUSH_RESCUERS && m.FewRoots()) || m.VeryFewRoots() ==> r != Abort
      ensures r != Abort ==> m.Valid() && old(m.marked) <= m.marked
      ensures r == More ==> m.state != MS_NONE && Less(m.Left(), old(m.Left())) && m.Entered(old(m.state))
      ensures old(m.state) == MS_ROOTS_PUSHED && r == More ==> m.stack == old(m.stack)
      ensures r == Done ==>
                old(m.state) == MS_ROOTS_PUSHED && m.stack.Length >= old(m.stack.Length)
                && m.state == MS_NONE && m.depth == 0 && m.objectsAreMarked
                && Inv(m.V(Nothing), MS_NONE, 0, m.L.statics + 1)
      ensures r != Abort && old(Within(m.V(Nothing), bound)) ==> Within(m.V(Nothing), bound)
    {
      hide *;
      m.FewRootsFit(grow);
      r := m.MarkSome(grow, bound);
      units := units + 1;
    }

    // One GC_mark_some while nobody writes.
    method MarkOnce(grow: bool, ghost bound: set<Obj>) returns (r: Outcome)
      requires m.Valid() && m.state != MS_NONE && m.dirty == {} && m.rootsDirty == {}
      requires m.state == MS_ROOTS_PUSHED ==> RootCount(m.L, m.L.statics) <= m.stack.Length
      modifies `units, m`marked, m`depth, m`state, m`tooSmall, m`objectsAreMarked, m`scan, m`stack, m.stack
      ensures units == old(units) + 1
      ensures m.stack == old(m.stack) || fresh(m.stack)
      ensures !grow ==> m.stack == old(m.stack)
      ensures (old(m.state) != MS_PUSH_RESCUERS && m.FewRoots()) || m.VeryFewRoots() ==> r != Abort
      ensures r != Abort ==> m.Valid() && old(m.marked) <= m.marked
      ensures r == More ==> m.state != MS_NONE && Less(m.Left(), old(m.Left()))
      ensures r == More && m.state == MS_PUSH_RESCUERS ==> old(m.state) == MS_PUSH_RESCUERS
      ensures r == More && m.state == MS_ROOTS_PUSHED ==> RootCount(m.L, m.L.statics) <= m.stack.Length
      ensures r == Done ==>
                m.state == MS_NONE && m.Complete() && m.Quiet() && RootCount(m.L, m.L.statics) <= m.stack.Length
      ensures r != Abort && old(Within(m.V(Nothing), bound)) ==> Within(m.V(Nothing), bound)
    {
      hide *;
      ghost var before := m.state;
      r := MarkUnit(grow, bound);
      if r == More { EnteredMeans(m, before); }
      if r == Done {
        m.DoneIsComplete();
        m.DoneIsQuiet();
      }
    }

    // GC_stopped_mark: mark from all roots with the world stopped, until the stop function says so.  It is asked
    // before each unit of work.
    method StoppedMark(stop: nat -> bool, grow: nat -> bool, ghost bound: set<Obj>) returns (r: Outcome)
      requires m.Base() && (m.state == MS_INVALID || (m.state == MS_NONE && m.incremental && m.Valid()))
      modifies `units, `deficit, `polls, m`marked, m`depth, m`state, m`tooSmall, m`objectsAreMarked, m`scan, m`stack,
               m.stack, m`dirty, m`grungy, m`rootsDirty
      ensures m.stack == old(m.stack) || fresh(m.stack)
      ensures (forall i :: !grow(i)) ==> m.stack == old(m.stack)
      ensures r == Done ==> m.Valid() && m.state == MS_NONE && m.Complete() && m.Quiet()
      ensures r == More ==> m.Valid() && m.state != MS_NONE && StoppedAt(stop, old(polls), polls)
      ensures r != More ==> NotStopped(stop, old(polls), polls)
      ensures polls - old(polls) == units - old(units) + if r == More then 1 else 0
      ensures deficit == if r == More then units - old(units) else old(deficit)
      ensures (old(m.state) == MS_INVALID && m.FewRoots()) || m.VeryFewRoots() ==> r != Abort
      ensures r == Done ==> RootCount(m.L, m.L.statics) <= m.stack.Length
      ensures r != Abort ==> old(m.marked) <= m.marked
      ensures r != Abort && old(Within(m.V(Nothing), bound)) ==> Within(m.V(Nothing), bound)
    {
      hide *;
      m.InitiateGc();
      var i: nat, stopped := 0, false;
      r := More;
      NoneAsked(stop, polls);
      while r == More && !stopped
        invariant r == More ==> m.Valid() && m.state != MS_NONE && m.dirty == {} && m.rootsDirty == {}
        invariant r == More && m.state == MS_ROOTS_PUSHED ==> RootCount(m.L, m.L.statics) <= m.stack.Length
        invariant r == More && old(m.state) == MS_INVALID ==> m.state != MS_PUSH_RESCUERS
        invariant r == Done ==> m.Valid() && m.state == MS_NONE && m.Complete() && m.Quiet()
        invariant r == Done ==> RootCount(m.L, m.L.statics) <= m.stack.Length
        invariant (old(m.state) == MS_INVALID && m.FewRoots()) || m.VeryFewRoots() ==> r != Abort
        invariant m.stack == old(m.stack) || fresh(m.stack)
        invariant (forall j :: !grow(j)) ==> m.stack == old(m.stack)
        invariant stopped ==> r == More && StoppedAt(stop, old(polls), polls)
        invariant !stopped ==> NotStopped(stop, old(polls), polls)
        invariant units == old(units) + i && polls == old(polls) + i + if stopped then 1 else 0
        invariant deficit == if stopped then i else old(deficit)
        invariant r != Abort ==> old(m.marked) <= m.marked
        invariant r != Abort && old(Within(m.V(Nothing), bound)) ==> Within(m.V(Nothing), bound)
        decreases r == More && !stopped, m.Left().unmarked, m.Left().rank, m.Left().blocksLeft, m.Left().work
      {
        polls := polls + 1;
        stopped := stop(polls);
        OneAsked(stop, old(polls), polls - 1);
        if stopped {
          deficit := i;
        } else {
          ghost var left := m.Left();
          r := MarkOnce(grow(i), bound);
          if r == More { IsLess(m.Left(), left); }
          i := i + 1;
        }
      }
    }

    // The part of GC_finish_collection that the mark phases depend on.
    method FinishCollection()
      modifies `nAttempts, `isFull
      ensures nAttempts == 0 && !isFull
    {
      nAttempts, isFull := 0, false;
    }

    // A full collection from scratch: the second half of GC_try_to_collect_inner.  When it gets done,
    // the marked objects are exactly those reachable from the roots and from the uncollectable
    // objects that were marked before.
    method FullCollection(stop: nat -> bool, grow: nat -> bool) returns (r: Outcome)
      requires m.Base()
      modifies this, m`marked, m`depth, m`state, m`tooSmall, m`objectsAreMarked, m`scan, m`stack, m.stack,
               m`dirty, m`grungy, m`rootsDirty
      ensures m.stack == old(m.stack) || fresh(m.stack)
      ensures (forall i :: !grow(i)) ==> m.stack == old(m.stack)
      ensures r != Abort ==> m.Ready()
      ensures r == More ==> StoppedAt(stop, old(polls), polls) && isFull && nAttempts == old(nAttempts)
      ensures r == More ==> m.state == MS_INVALID || (m.incremental && m.state != MS_NONE)
      ensures r != More ==> NotStopped(stop, old(polls), polls)
      ensures m.FewRoots() ==> r != Abort
      ensures r == Done ==> RootCount(m.L, m.L.statics) <= m.stack.Length && nAttempts == 0 && !isFull
      ensures r == Done ==>
                && m.state == MS_NONE && m.Complete() && m.Quiet()
                && old(m.marked) <= m.L.block.Keys && m.marked == Live(m.L, m.mem, old(m.marked))
    {
      hide *;
      InBlocks(m);
      ghost var before := m.marked;
      ghost var bound := ReachSet(m.L, m.mem, RootTargets(m.L, m.mem) + Kept(m.L, before));
      m.InvalidateMarkState();
      m.ClearMarks();
      isFull := true;
      Bounded(m, before);
      StaysReady(m);
      r := StoppedMark(stop, grow, bound);
      if r == More {
        StaysReady(m);
        if !m.incremental {
          m.InvalidateMarkState();
          StaysReady(m);
        }
      } else if r == Done {
        StaysReady(m);
        ExactMarks(m, before);
        FinishCollection();
      }
    }

    // The incremental branch of GC_collect_a_little_inner: go on with the collection in progress, by n times GC_RATE
    // units less the deficit, unless it comes to its end before.
    method Continue(n: nat, timeout: nat -> bool, grow: nat -> bool, ghost bound: set<Obj>) returns (ok: bool)
      requires m.incremental && m.Valid() && m.state != MS_NONE
      modifies this, m`marked, m`depth, m`state, m`tooSmall, m`objectsAreMarked, m`scan, m`stack, m.stack,
               m`dirty, m`grungy, m`rootsDirty
      ensures m.stack == old(m.stack) || fresh(m.stack)
      ensures m.VeryFewRoots() ==> ok
      ensures ok ==> m.Valid() && old(m.marked) <= m.marked
      ensures old(polls) <= polls
      ensures ok && m.state == MS_NONE ==> m.Complete() && m.Quiet() && nAttempts == 0 && !isFull
      ensures ok && m.state != MS_NONE ==> isFull == old(isFull)
      ensures ok && m.state != MS_NONE && nAttempts != old(nAttempts) ==>
                && timeLimited && old(nAttempts) < MAX_PRIOR_ATTEMPTS && nAttempts == old(nAttempts) + 1
                && StoppedAt(timeout, old(polls), polls)
      ensures ok && m.state != MS_NONE && nAttempts == old(nAttempts) ==>
                polls == old(polls) && units == old(units) + Surplus(GC_RATE * n, old(deficit))
      ensures ok && (m.state == MS_NONE || nAttempts == old(nAttempts)) ==>
                deficit == Surplus(old(deficit), GC_RATE * n)
      ensures ok && n > 0 && m.state != MS_NONE ==>
                Closer(nAttempts, m.Left(), deficit, old(nAttempts), old(m.Left()), old(deficit))
      ensures ok && old(Within(m.V(Nothing), bound)) ==> Within(m.V(Nothing), bound)
    {
      hide *;
      var i, ended := deficit, false;
      ok := true;
      while i < GC_RATE * n && !ended
        invariant ended || !ok ==> i < GC_RATE * n
        invariant ok && !ended ==> m.Valid() && m.state != MS_NONE && polls == old(polls)
        invariant ok && !ended ==> units - old(units) == i - old(deficit) && isFull == old(isFull)
        invariant !ok ==> ended
        invariant m.stack == old(m.stack) || fresh(m.stack)
        invariant m.VeryFewRoots() ==> ok
        invariant old(deficit) <= i && (i <= GC_RATE * n || i == old(deficit))
        invariant old(polls) <= polls && (!ended ==> nAttempts == old(nAttempts))
        invariant !ended && i == old(deficit) ==> m.Left() == old(m.Left())
        invariant !ended && i > old(deficit) ==> Less(m.Left(), old(m.Left()))
        invariant ok ==> old(m.marked) <= m.marked
        invariant ok && old(Within(m.V(Nothing), bound)) ==> Within(m.V(Nothing), bound)
        invariant ok && ended ==> Remarked(timeout, old(polls), old(nAttempts)) && m.Valid()
        invariant ok && ended && m.state != MS_NONE ==> isFull == old(isFull)
        invariant !(ok && ended && m.state != MS_NONE) ==> deficit == old(deficit)
        decreases !ended, GC_RATE * n - i
      {
        ghost var left := m.Left();
        var r := MarkUnit(grow(i), bound);
        if r == More {
          if i > old(deficit) { LessTrans(m.Left(), left, old(m.Left())); }
          i := i + 1;
        } else {
          ended := true;
          ok := false;
          if r == Done { ok := RemarkStopped(timeout, grow, bound); }
        }
      }
      RemarkedMeans(timeout, old(polls), old(nAttempts));
      RateIs(n);
      IsCloser(nAttempts, m.Left(), Surplus(deficit, GC_RATE * n), old(nAttempts), old(m.Left()), old(deficit));
      AreSurplus(deficit, GC_RATE * n);
      AreSurplus(old(deficit), GC_RATE * n);
      deficit := if deficit > GC_RATE * n then deficit - GC_RATE * n else 0;
    }

    // The outcome of remarking: the collection is finished, or the timeout has stopped the first attempt.
    ghost predicate Remarked(timeout: nat -> bool, polls0: nat, nAttempts0: nat)
      reads this, m, m.stack
    {
      if m.state == MS_NONE then
        && m.Complete() && m.Quiet() && nAttempts == 0 && !isFull
        && (timeLimited && nAttempts0 < MAX_PRIOR_ATTEMPTS ==> NotStopped(timeout, polls0, polls))
      else
        && timeLimited && nAttempts0 < MAX_PRIOR_ATTEMPTS && nAttempts == nAttempts0 + 1
        && StoppedAt(timeout, polls0, polls)
    }

    lemma RemarkedMeans(timeout: nat -> bool, polls0: nat, nAttempts0: nat)
      ensures Remarked(timeout, polls0, nAttempts0) && m.state == MS_NONE ==>
                m.Complete() && m.Quiet() && nAttempts == 0 && !isFull
      ensures Remarked(timeout, polls0, nAttempts0) && m.state != MS_NONE ==>
                && timeLimited && nAttempts0 < MAX_PRIOR_ATTEMPTS && nAttempts == nAttempts0 + 1
                && StoppedAt(timeout, polls0, polls)
    {
    }

    // What GC_collect_a_little_inner does when concurrent marking has come to an end.
    method RemarkStopped(timeout: nat -> bool, grow: nat -> bool, ghost bound: set<Obj>) returns (ok: bool)
      requires m.incremental && m.Valid() && m.state == MS_NONE
      modifies this, m`marked, m`depth, m`state, m`tooSmall, m`objectsAreMarked, m`scan, m`stack, m.stack,
               m`dirty, m`grungy, m`rootsDirty
      ensures m.stack == old(m.stack) || fresh(m.stack)
      ensures m.VeryFewRoots() ==> ok
      ensures ok ==> m.Valid() && Remarked(timeout, old(polls), old(nAttempts)) && old(m.marked) <= m.marked
      ensures old(polls) <= polls && (m.state != MS_NONE ==> isFull == old(isFull))
      ensures !ok || m.state == MS_NONE ==> deficit == old(deficit)
      ensures ok && old(Within(m.V(Nothing), bound)) ==> Within(m.V(Nothing), bound)
    {
      hide Inv, Within, Layout.WellFormed, Shape, Marker.Valid, Marker.Complete, Marker.Quiet, StoppedAt, NotStopped,
           Marker.VeryFewRoots, Marker.FewRoots, RootCount;
      InBase();
      var r;
      if nAttempts < MAX_PRIOR_ATTEMPTS && timeLimited {
        r := StoppedMark(timeout, grow, bound);
        if r == More { nAttempts := nAttempts + 1; }
      } else {
        r := StoppedMark(Never, grow, bound);
        NeverStops(old(polls), polls);
      }
      if r == Done { FinishCollection(); }
      Asked(timeout, old(polls), polls);
      Asked(Never, old(polls), polls);
      ok := r != Abort;
    }

    lemma InBase()
      requires m.Valid()
      ensures m.Base()
    {
      hide Inv, Shape;
    }

    // GC_try_to_collect_inner: finish a collection in progress, then do a full one.  The objects in `mid` are those
    // that are marked when the full one starts.
    method TryToCollect(stop: nat -> bool, timeout: nat -> bool, grow: nat -> bool)
      returns (r: Outcome, ghost mid: set<Obj>)
      requires m.Ready()
      modifies this, m`marked, m`depth, m`state, m`tooSmall, m`objectsAreMarked, m`scan, m`stack, m.stack,
               m`dirty, m`grungy, m`rootsDirty
      ensures m.stack == old(m.stack) || fresh(m.stack)
      ensures r != Abort ==> m.Ready()
      ensures r == More ==> polls > old(polls) && stop(polls)
      ensures !old(InProgress()) && r == More ==> StoppedAt(stop, old(polls), polls)
      ensures !old(InProgress()) && r == Done ==> NotStopped(stop, old(polls), polls)
      ensures stop(old(polls) + 1) ==> r == More && polls == old(polls) + 1 && m.marked == old(m.marked)
      ensures m.RootsFit() ==> r != Abort
      ensures old(m.marked) <= mid && (!old(InProgress()) ==> mid == old(m.marked))
      ensures old(InProgress()) && r == Done ==> mid == ReachSet(m.L, m.mem, RootTargets(m.L, m.mem) + mid)
      ensures r == Done ==>
                && m.state == MS_NONE && m.Complete() && m.Quiet() && nAttempts == 0 && !isFull
                && mid <= m.L.block.Keys && m.marked == Live(m.L, m.mem, mid)
                && m.marked <= m.L.block.Keys && m.marked == Live(m.L, m.mem, m.marked)
    {
      hide *;
      mid := m.marked;
      IsReady(m);
      IsInProgress();
      NoneAsked(stop, polls);
      OneAsked(stop, polls, polls);
      polls := polls + 1;
      r := Done;
      if stop(polls) {
        r := More;
      } else if m.incremental {
        RootsFitMeans(m);
        ghost var turns;
        r, turns := FinishInProgress(stop, timeout, grow);
        if r != Abort {
          StaysReady(m);
          mid := m.marked;
          IsClosed(m);
        }
      }
      if r == Done {
        IsReady(m);
        MoreRoom(m);
        ghost var p := polls;
        r := FullCollection(stop, grow);
        Asked(stop, p, polls);
        AskedOn(stop, old(polls), p, polls);
        if r == Done {
          IsReady(m);
          InBlocks(m);
          SeedsKept(m, mid);
        }
      }
    }

    // The loop that finishes a collection in progress, a turn for each time the stop function lets it go on.
    method FinishInProgress(stop: nat -> bool, timeout: nat -> bool, grow: nat -> bool)
      returns (r: Outcome, ghost turns: nat)
      requires m.incremental && m.Valid()
      modifies this, m`marked, m`depth, m`state, m`tooSmall, m`objectsAreMarked, m`scan, m`stack, m.stack,
               m`dirty, m`grungy, m`rootsDirty
      ensures m.stack == old(m.stack) || fresh(m.stack)
      ensures r != Abort ==> m.Valid() && old(m.marked) <= m.marked
      ensures r == Done ==> m.state == MS_NONE
      ensures r == Done && old(m.state) != MS_NONE ==> m.Complete() && m.Quiet() && nAttempts == 0 && !isFull
      ensures old(m.state) == MS_NONE ==> r == Done && polls == old(polls) && m.marked == old(m.marked)
      ensures old(polls) + turns <= polls && (r == More ==> m.state != MS_NONE && polls > old(polls) && stop(polls))
      ensures r == More && nAttempts == old(nAttempts) ==>
                && Turned(turns, turns + 1, old(Count(units, deficit, polls)), Count(units, deficit, polls))
                && StoppedAt(stop, old(polls), polls)
      ensures old(m.state) != MS_NONE && stop(old(polls) + 1) ==>
                r == More && turns == 0 && nAttempts == old(nAttempts) && m.marked == old(m.marked)
      ensures m.VeryFewRoots() ==> r != Abort
    {
      hide *;
      r, turns := Done, 0;
      NoneAsked(stop, polls);
      NoTurn(Count(units, deficit, polls));
      while m.state != MS_NONE && r == Done
        invariant r != Abort ==> m.Valid() && old(m.marked) <= m.marked
        invariant m.stack == old(m.stack) || fresh(m.stack)
        invariant r == Done && m.state == MS_NONE && old(m.state) != MS_NONE ==>
                    m.Complete() && m.Quiet() && nAttempts == 0 && !isFull
        invariant old(m.state) == MS_NONE ==> m.state == MS_NONE && polls == old(polls) && m.marked == old(m.marked)
        invariant old(m.state) == MS_NONE ==> r == Done
        invariant old(polls) + turns <= polls
        invariant r == More ==> m.state != MS_NONE && polls > old(polls) && stop(polls)
        invariant m.state != MS_NONE && r == Done ==> nAttempts >= old(nAttempts)
        invariant m.state != MS_NONE && r == Done && nAttempts == old(nAttempts) ==>
                    && Turned(turns, turns, old(Count(units, deficit, polls)), Count(units, deficit, polls))
                    && NotStopped(stop, old(polls), polls)
        invariant r == More && nAttempts == old(nAttempts) ==>
                    && Turned(turns, turns + 1, old(Count(units, deficit, polls)), Count(units, deficit, polls))
                    && StoppedAt(stop, old(polls), polls)
        invariant turns == 0 ==> nAttempts == old(nAttempts) && m.marked == old(m.marked)
        invariant turns == 0 && r == Done ==> polls == old(polls) && m.state == old(m.state)
        invariant if turns > 0 then !stop(old(polls) + 1) else r != Abort
        invariant m.VeryFewRoots() ==> r != Abort
        decreases r == Done, m.state != MS_NONE, AttemptsLeft(nAttempts),
                  m.Left().unmarked, m.Left().rank, m.Left().blocksLeft, m.Left().work, deficit
      {
        OneAsked(stop, old(polls), polls);
        ghost var before := Count(units, deficit, polls);
        polls := polls + 1;
        if stop(polls) {
          AnotherTurn(turns, old(Count(units, deficit, polls)), before, Count(units, deficit, polls));
          r := More;
        } else {
          ghost var a, l, d := nAttempts, m.Left(), deficit;
          var ok := Continue(1, timeout, grow, {});
          AnotherTurn(turns, old(Count(units, deficit, polls)), before, Count(units, deficit, polls));
          turns := turns + 1;
          if !ok {
            r := Abort;
          } else if m.state != MS_NONE {
            CloserMeans(nAttempts, m.Left(), deficit, a, l, d);
          }
        }
      }
    }

    // GC_collect_a_little_inner.
    method CollectALittle(n: nat, should: bool, full: bool, timeout: nat -> bool, grow: nat -> bool,
                          ghost bound: set<Obj>) returns (ok: bool)
      requires m.Ready()
      modifies this, m`marked, m`depth, m`state, m`tooSmall, m`objectsAreMarked, m`scan, m`stack, m.stack,
               m`dirty, m`grungy, m`rootsDirty
      ensures m.stack == old(m.stack) || fresh(m.stack)
      ensures ok ==> m.Ready()
      ensures m.RootsFit() ==> ok
      ensures ok && old(InProgress()) ==> old(m.marked) <= m.marked
      ensures ok && old(InProgress() && Within(m.V(Nothing), bound)) ==> Within(m.V(Nothing), bound)
      ensures ok && old(InProgress()) && m.state == MS_NONE ==> m.Complete() && m.Quiet() && nAttempts == 0 && !isFull
      ensures ok && old(InProgress()) && m.state != MS_NONE && nAttempts == old(nAttempts) ==>
                && units == old(units) + Surplus(GC_RATE * n, old(deficit))
                && deficit == Surplus(old(deficit), GC_RATE * n)
      ensures ok && old(InProgress()) && n > 0 && m.state != MS_NONE ==>
                Closer(nAttempts, m.Left(), deficit, old(nAttempts), old(m.Left()), old(deficit))
      ensures ok && !old(InProgress()) && should ==> Collected(full, old(m.marked), old(polls), timeout)
      ensures !old(InProgress()) && !should ==>
                && ok && m.V(Nothing) == old(m.V(Nothing)) && m.state == old(m.state) && polls == old(polls)
                && nAttempts == old(nAttempts) && isFull == old(isFull) && deficit == old(deficit)
    {
      hide *;
      IsReady(m);
      IsInProgress();
      if m.incremental && m.state != MS_NONE {
        ok := Continue(n, timeout, grow, bound);
        RootsFitMeans(m);
        StaysReady(m);
      } else if should {
        ok := MaybeGc(full, timeout, grow);
      } else {
        ok := true;
      }
    }

    // GC_incremental && GC_collection_in_progress()
    predicate InProgress()
      reads m`state
    {
      m.incremental && m.state != MS_NONE
    }

    lemma IsInProgress()
      ensures InProgress() <==> m.incremental && m.state != MS_NONE
    {
    }

    // What GC_maybe_gc leaves when it has collected.  A full collection marks exactly what is reachable from the roots
    // and the uncollectable objects, a partial one what is reachable from the roots and the marked objects; if the
    // timeout has stopped it, no more than that is marked.
    ghost predicate Collected(full: bool, before: set<Obj>, polls0: nat, timeout: nat -> bool)
      reads this, m, m.stack
    {
      && before <= m.L.block.Keys
      && (m.state == MS_NONE ==> m.Complete() && m.Quiet() && nAttempts == 0 && !isFull)
      && if !m.incremental then m.state == MS_NONE && m.marked == Live(m.L, m.mem, before)
         else
           ghost var seeds := if full then Kept(m.L, before) else before;
           && seeds <= m.marked && Within(m.V(Nothing), ReachSet(m.L, m.mem, RootTargets(m.L, m.mem) + seeds))
           && (m.state == MS_NONE ==> m.marked == ReachSet(m.L, m.mem, RootTargets(m.L, m.mem) + seeds))
           && if m.state == MS_NONE then NotStopped(timeout, polls0, polls) else StoppedAt(timeout, polls0, polls)
    }

    // GC_maybe_gc, once it has decided to collect.
    method MaybeGc(full: bool, timeout: nat -> bool, grow: nat -> bool) returns (ok: bool)
      requires m.Ready() && (m.incremental ==> m.state == MS_NONE)
      modifies this, m`marked, m`depth, m`state, m`tooSmall, m`objectsAreMarked, m`scan, m`stack, m.stack,
               m`dirty, m`grungy, m`rootsDirty
      ensures m.stack == old(m.stack) || fresh(m.stack)
      ensures m.RootsFit() ==> ok
      ensures ok ==> m.Ready() && Collected(full, old(m.marked), old(polls), timeout)
      ensures ok && m.state != MS_NONE ==>
                && isFull == (full || old(isFull))
                && nAttempts == old(nAttempts) + if full || old(isFull) then 0 else 1
    {
      hide *;
      ghost var before := m.marked;
      if !m.incremental {
        IsInProgress();
        var r;
        ghost var mid;
        r, mid := TryToCollect(Never, timeout, grow);
        ok := r != Abort;
        NeverStops(polls, polls);
        if r == Done { IsCollected(full, before, old(polls), timeout); }
      } else {
        RootsFitMeans(m);
        ok := MaybeStop(full, timeout, grow);
      }
    }

    // The part of it for incremental collection.
    method MaybeStop(full: bool, timeout: nat -> bool, grow: nat -> bool) returns (ok: bool)
      requires m.Ready() && m.incremental && m.state == MS_NONE
      modifies this, m`marked, m`depth, m`state, m`tooSmall, m`objectsAreMarked, m`scan, m`stack, m.stack,
               m`dirty, m`grungy, m`rootsDirty
      ensures m.stack == old(m.stack) || fresh(m.stack)
      ensures m.VeryFewRoots() ==> ok
      ensures ok ==> m.Ready() && Collected(full, old(m.marked), old(polls), timeout)
      ensures ok && m.state != MS_NONE ==>
                && isFull == (full || old(isFull))
                && nAttempts == old(nAttempts) + if full || old(isFull) then 0 else 1
    {
      hide *;
      IsReady(m);
      InBlocks(m);
      ghost var before := m.marked;
      ghost var seeds := if full then Kept(m.L, before) else before;
      if full {
        m.ClearMarks();
        isFull := true;
        Bounded(m, before);
      } else {
        BoundedNow(m);
      }
      StaysReady(m);
      var r := StoppedMark(timeout, grow, ReachSet(m.L, m.mem, RootTargets(m.L, m.mem) + seeds));
      if r == Done {
        FinishCollection();
      } else if r == More && !isFull {
        nAttempts := nAttempts + 1;
      }
      ok := r != Abort;
      if ok {
        StaysReady(m);
        IsStopped(full, before, seeds, old(polls), timeout);
      }
    }

    lemma IsCollected(full: bool, before: set<Obj>, polls0: nat, timeout: nat -> bool)
      requires !m.incremental && m.state == MS_NONE && m.Complete() && m.Quiet() && nAttempts == 0 && !isFull
      requires before <= m.L.block.Keys && m.marked == Live(m.L, m.mem, before)
      ensures Collected(full, before, polls0, timeout)
    {
      hide Live, Marker.Complete, Marker.Quiet;
    }

    lemma IsStopped(full: bool, before: set<Obj>, seeds: set<Obj>, polls0: nat, timeout: nat -> bool)
      requires m.incremental && m.Valid() && before <= m.L.block.Keys
      requires seeds == (if full then Kept(m.L, before) else before) && seeds <= m.marked
      requires Within(m.V(Nothing), ReachSet(m.L, m.mem, RootTargets(m.L, m.mem) + seeds))
      requires if m.state == MS_NONE then NotStopped(timeout, polls0, polls) else StoppedAt(timeout, polls0, polls)
      requires m.state == MS_NONE ==> m.Complete() && m.Quiet() && nAttempts == 0 && !isFull
      ensures Collected(full, before, polls0, timeout)
    {
      hide Inv, Within, Marker.Valid, Marker.Quiet, Marker.Complete, Kept, ReachSet, RootTargets, NotStopped, StoppedAt;
      if m.state == MS_NONE {
        RootsMarked(m);
        ExactSeeds(m, RootTargets(m.L, m.mem) + seeds);
      }
    }

    // GC_collect_a_little_inner, called again and again while a collection is in progress, each time for at least one
    // unit; in between the program writes what it likes.  The collection comes to its end.
    method CollectInTurns(writes: nat -> seq<Op>, n: nat -> nat, timeout: nat -> nat -> bool, grow: nat -> nat -> bool)
      returns (ok: bool, calls: nat)
      requires m.incremental && m.Valid() && forall i: nat :: n(i) > 0
      requires forall i: nat :: MayWrite(writes(i), m.mem)
      modifies this, m, m.stack
      ensures m.VeryFewRoots() ==> ok
      ensures ok ==> m.Valid() && m.state == MS_NONE && (calls > 0 ==> m.Complete() && m.Quiet())
      ensures old(m.state) == MS_NONE <==> calls == 0
      ensures ok ==> m.mem == AppliedAll(old(m.mem), writes, calls)
    {
      hide *;
      ok, calls := true, 0;
      ghost var mem0 := m.mem;
      SameShape(m.mem, mem0);
      NoneApplied(m.mem, writes);
      while m.state != MS_NONE && ok
        invariant ok ==> m.Valid() && (calls > 0 && m.state == MS_NONE ==> m.Complete() && m.Quiet())
        invariant m.VeryFewRoots() ==> ok
        invariant m.stack == old(m.stack) || fresh(m.stack)
        invariant SameSizes(m.mem, mem0)
        invariant old(m.state) == MS_NONE ==> calls == 0 && m.state == MS_NONE
        invariant calls == 0 ==> ok && m.state == old(m.state)
        invariant m.mem == AppliedAll(mem0, writes, calls)
        decreases ok, m.state != MS_NONE, AttemptsLeft(nAttempts),
                  m.Left().unmarked, m.Left().rank, m.Left().blocksLeft, m.Left().work, deficit
      {
        ghost var a, l, d := nAttempts, m.Left(), deficit;
        ghost var before := m.mem;
        StillMayWrite(writes(calls), m.mem, mem0);
        Writes(writes(calls));
        SameTrans(m.mem, before, mem0);
        StaysReady(m);
        IsInProgress();
        RootsFitMeans(m);
        ok := CollectALittle(n(calls), false, false, timeout(calls), grow(calls), {});
        if ok {
          IsReady(m);
          if m.state != MS_NONE { CloserMeans(nAttempts, m.Left(), deficit, a, l, d); }
        }
        MoreApplied(mem0, writes, calls);
        calls := calls + 1;
      }
    }

    // A sequence of writes of the program.
    method Writes(ops: seq<Op>)
      requires m.incremental && m.Valid() && MayWrite(ops, m.mem)
      modifies m`mem, m`dirty, m`rootsDirty
      ensures m.Valid() && m.mem == Applied(old(m.mem), ops)
      ensures m.Left() == old(m.Left()) && SameSizes(m.mem, old(m.mem))
    {
      hide Inv, Shape, Layout.WellFormed, Marker.Base, Marker.Left;
      assert ops[..0] == [];
      for i := 0 to |ops|
        invariant m.Valid() && SameSizes(m.mem, old(m.mem)) && m.mem == Applied(old(m.mem), ops[..i])
      {
        StaysReady(m);
        m.Write(ops[i].a, ops[i].k, ops[i].w);
        AppliedNext(old(m.mem), ops, i);
        IsReady(m);
      }
      assert ops[..|ops|] == ops;
    }

    // Writes of the program and units of marking work in any order, as long as the collection is in progress.
    method Interleave(ops: seq<Op>) returns (ok: bool)
      requires m.incremental && m.Valid()
      requires forall op <- ops :: op.WriteOp? ==> op.a in m.mem && op.k < |m.mem[op.a]|
      modifies `units, m, m.stack
      ensures m.stack == old(m.stack) || fresh(m.stack)
      ensures ok ==> m.Valid() && m.mem == Applied(old(m.mem), ops) && old(m.marked) <= m.marked
      ensures ok && m.state != MS_NONE ==> units == old(units) + Marks(ops)
      ensures ok && old(m.state) == MS_NONE ==> m.state == MS_NONE && units == old(units)
      ensures m.VeryFewRoots() ==> ok
    {
      hide *;
      ok := true;
      SameShape(m.mem, m.mem);
      NothingApplied(m.mem, ops);
      for i := 0 to |ops|
        invariant m.VeryFewRoots() ==> ok
        invariant ok ==> m.Valid() && SameSizes(m.mem, old(m.mem)) && m.mem == Applied(old(m.mem), ops[..i])
        invariant ok ==> old(m.marked) <= m.marked
        invariant ok && m.state != MS_NONE ==> units == old(units) + Marks(ops[..i])
        invariant ok && old(m.state) == MS_NONE ==> m.state == MS_NONE && units == old(units)
        invariant m.stack == old(m.stack) || fresh(m.stack)
      {
        if ok {
          AppliedNext(old(m.mem), ops, i);
          MarksNext(ops, i);
          match ops[i] {
            case WriteOp(a, k, w) =>
              StaysReady(m);
              SizesMean(m.mem, old(m.mem), a);
              m.Write(a, k, w);
              SizesKept(old(m.mem), ops, i, m.mem);
              IsReady(m);
            case MarkOp(g) =>
              if m.state != MS_NONE {
                var r := MarkUnit(g, {});
                ok := r != Abort;
              }
          }
        }
      }
      assert ops[..|ops|] == ops;
    }

    // Mostly-concurrent marking: whatever interleaving of mutator writes and units of marking work comes
    // first, once the world-stopped phase gets done everything reachable is marked.
    method MostlyConcurrent(ops: seq<Op>, stop: nat -> bool, grow: nat -> bool) returns (r: Outcome)
      requires m.incremental && m.Valid()
      requires forall op <- ops :: op.WriteOp? ==> op.a in m.mem && op.k < |m.mem[op.a]|
      modifies this, m, m.stack
      ensures r == Done ==> m.Valid() && m.Complete() && m.Quiet() && m.mem == Applied(old(m.mem), ops)
      ensures r == More ==> polls > old(polls) && stop(polls)
      ensures m.VeryFewRoots() ==> r != Abort
    {
      hide *;
      var ok := Interleave(ops);
      r := if ok then Done else Abort;
      Asked(stop, polls, polls);
      if r == Done {
        ghost var turns;
        r, turns := FinishInProgress(stop, stop, grow);
      }
      if r == Done {
        InBase();
        ghost var p := polls;
        r := StoppedMark(stop, grow, {});
        Asked(stop, p, polls);
      }
    }
  }

  lemma RateIs(n: nat)
    ensures n > 0 ==> GC_RATE * n > 0
  {
  }

  // The stop function has been asked for the (a + 1)st to the bth time, and has not said so.
  predicate Never(i: nat) { false }

  ghost predicate NotStopped(stop: nat -> bool, a: nat, b: nat) {
    a <= b && forall k: nat :: a < k <= b ==> !stop(k)
  }

  ghost predicate StoppedAt(stop: nat -> bool, a: nat, b: nat) {
    a < b && stop(b) && NotStopped(stop, a, b - 1)
  }

  lemma NoneAsked(stop: nat -> bool, a: nat)
    ensures NotStopped(stop, a, a)
  {
  }

  lemma OneAsked(stop: nat -> bool, a: nat, p: nat)
    ensures NotStopped(stop, a, p) ==>
              if stop(p + 1) then StoppedAt(stop, a, p + 1) else NotStopped(stop, a, p + 1)
  {
  }

  lemma Asked(stop: nat -> bool, a: nat, b: nat)
    ensures StoppedAt(stop, a, b) ==> a < b && stop(b)
    ensures NotStopped(stop, a, b) ==> a <= b
  {
  }

  lemma AskedOn(stop: nat -> bool, a: nat, b: nat, c: nat)
    ensures NotStopped(stop, a, b) && StoppedAt(stop, b, c) ==> StoppedAt(stop, a, c)
    ensures NotStopped(stop, a, b) && NotStopped(stop, b, c) ==> NotStopped(stop, a, c)
  {
  }

  lemma NeverStops(a: nat, b: nat)
    ensures !StoppedAt(Never, a, b) && !Never(b)
  {
  }

  // How much a is more than b.
  function Surplus(a: nat, b: nat): nat {
    if a > b then a - b else 0
  }

  // What so many turns of a collection in progress, each for one call of the allocator, come to if the timeout does not
  // stop it.
  ghost predicate Turned(turns: nat, asked: nat, c0: Count, c: Count) {
    && c.units == c0.units + Surplus(GC_RATE * turns, c0.deficit)
    && c.deficit == Surplus(c0.deficit, GC_RATE * turns) && c.polls == c0.polls + asked
  }

  lemma NoTurn(c: Count)
    ensures Turned(0, 0, c, c)
  {
  }

  lemma AnotherTurn(turns: nat, c0: Count, c1: Count, c2: Count)
    ensures Turned(turns, turns, c0, c1) && c2.polls == c1.polls + 1 && c2.units == c1.units && c2.deficit == c1.deficit
            ==> Turned(turns, turns + 1, c0, c2)
    ensures Turned(turns, turns, c0, c1) && c2.polls == c1.polls + 1
            && c2.units == c1.units + Surplus(GC_RATE * 1, c1.deficit) && c2.deficit == Surplus(c1.deficit, GC_RATE * 1)
            ==> Turned(turns + 1, turns + 1, c0, c2)
  {
  }

  lemma AreSurplus(a: nat, b: nat)
    ensures Surplus(a, b) == if a > b then a - b else 0
    ensures Surplus(b, a) == if b > a then b - a else 0
  {
  }

  function AttemptsLeft(n: nat): nat { Surplus(MAX_PRIOR_ATTEMPTS, n) }

  // The memory after the writes among the operations.
  function Applied(mem: map<Area, seq<Word>>, ops: seq<Op>): map<Area, seq<Word>> {
    if ops == [] then mem
    else
      var before, op := Applied(mem, ops[..|ops| - 1]), ops[|ops| - 1];
      if op.WriteOp? && op.a in before && op.k < |before[op.a]| then before[op.a := before[op.a][op.k := op.w]]
      else before
  }

  // The memory after the first k of the sequences of writes.
  function AppliedAll(mem: map<Area, seq<Word>>, writes: nat -> seq<Op>, k: nat): map<Area, seq<Word>> {
    if k == 0 then mem else Applied(AppliedAll(mem, writes, k - 1), writes(k - 1))
  }

  lemma NoneApplied(mem: map<Area, seq<Word>>, writes: nat -> seq<Op>)
    ensures AppliedAll(mem, writes, 0) == mem
  {
  }

  lemma MoreApplied(mem: map<Area, seq<Word>>, writes: nat -> seq<Op>, k: nat)
    ensures AppliedAll(mem, writes, k + 1) == Applied(AppliedAll(mem, writes, k), writes(k))
  {
  }

  // How many of the operations are units of marking work.
  function Marks(ops: seq<Op>): nat {
    if ops == [] then 0 else Marks(ops[..|ops| - 1]) + if ops[|ops| - 1].MarkOp? then 1 else 0
  }

  lemma MarksNext(ops: seq<Op>, i: nat)
    requires i < |ops|
    ensures Marks(ops[..i + 1]) == Marks(ops[..i]) + if ops[i].MarkOp? then 1 else 0
  {
    assert ops[..i + 1][..i] == ops[..i];
  }

  lemma AppliedNext(mem: map<Area, seq<Word>>, ops: seq<Op>, i: nat)
    requires i < |ops|
    ensures var before := Applied(mem, ops[..i]);
            Applied(mem, ops[..i + 1]) ==
            if ops[i].WriteOp? && ops[i].a in before && ops[i].k < |before[ops[i].a]|
            then before[ops[i].a := before[ops[i].a][ops[i].k := ops[i].w]] else before
  {
    assert ops[..i + 1][..i] == ops[..i];
  }

  ghost predicate MayWrite(ops: seq<Op>, mem: map<Area, seq<Word>>) {
    forall op <- ops :: op.WriteOp? && op.a in mem && op.k < |mem[op.a]|
  }

  ghost predicate SameSizes(mem: map<Area, seq<Word>>, mem0: map<Area, seq<Word>>) {
    mem.Keys == mem0.Keys && forall a <- mem :: |mem[a]| == |mem0[a]|
  }

  lemma SameShape(mem: map<Area, seq<Word>>, mem0: map<Area, seq<Word>>)
    ensures mem == mem0 ==> SameSizes(mem, mem0)
  {
  }

  lemma NothingApplied(mem: map<Area, seq<Word>>, ops: seq<Op>)
    ensures Applied(mem, ops[..0]) == mem && Marks(ops[..0]) == 0
  {
  }

  lemma SizesMean(mem: map<Area, seq<Word>>, mem0: map<Area, seq<Word>>, a: Area)
    requires SameSizes(mem, mem0)
    ensures a in mem <==> a in mem0
    ensures a in mem ==> |mem[a]| == |mem0[a]|
  {
  }

  lemma {:induction false} AppliedSizes(mem: map<Area, seq<Word>>, ops: seq<Op>)
    ensures SameSizes(Applied(mem, ops), mem)
  {
    if ops != [] { AppliedSizes(mem, ops[..|ops| - 1]); }
  }

  lemma SizesKept(mem: map<Area, seq<Word>>, ops: seq<Op>, i: nat, now: map<Area, seq<Word>>)
    requires i < |ops|
    ensures now == Applied(mem, ops[..i + 1]) ==> SameSizes(now, mem)
  {
    AppliedSizes(mem, ops[..i + 1]);
  }

  lemma SameTrans(mem: map<Area, seq<Word>>, mem1: map<Area, seq<Word>>, mem0: map<Area, seq<Word>>)
    requires SameSizes(mem, mem1) && SameSizes(mem1, mem0)
    ensures SameSizes(mem, mem0)
  {
  }

  lemma StillMayWrite(ops: seq<Op>, mem: map<Area, seq<Word>>, mem0: map<Area, seq<Word>>)
    requires MayWrite(ops, mem0) && SameSizes(mem, mem0)
    ensures MayWrite(ops, mem)
  {
  }

  lemma MoreRoom(m: Marker)
    ensures m.RootsFit() ==> m.FewRoots()
  {
  }

  // The measure for finishing a collection in progress: attempts left, then marking work, then the deficit.
  ghost predicate Closer(n1: nat, l1: Measure, d1: nat, n0: nat, l0: Measure, d0: nat) {
    || (n0 < MAX_PRIOR_ATTEMPTS && n1 == n0 + 1)
    || (n1 == n0 && (Less(l1, l0) || (l1 == l0 && d1 < d0)))
  }

  lemma CloserMeans(n1: nat, l1: Measure, d1: nat, n0: nat, l0: Measure, d0: nat)
    requires Closer(n1, l1, d1, n0, l0, d0)
    ensures || AttemptsLeft(n1) < AttemptsLeft(n0)
            || (AttemptsLeft(n1) == AttemptsLeft(n0)
                && (|| l1.unmarked < l0.unmarked
                    || (l1.unmarked == l0.unmarked
                        && (|| l1.rank < l0.rank
                            || (l1.rank == l0.rank
                                && (|| l1.blocksLeft < l0.blocksLeft
                                    || (l1.blocksLeft == l0.blocksLeft
                                        && (l1.work < l0.work || (l1.work == l0.work && d1 < d0)))))))))
  {
  }

  lemma IsCloser(n1: nat, l1: Measure, d1: nat, n0: nat, l0: Measure, d0: nat)
    ensures n0 < MAX_PRIOR_ATTEMPTS && n1 == n0 + 1 ==> Closer(n1, l1, d1, n0, l0, d0)
    ensures n1 == n0 && (Less(l1, l0) || (l1 == l0 && d1 < d0)) ==> Closer(n1, l1, d1, n0, l0, d0)
  {
  }

  lemma SeedsKept(m: Marker, before: set<Obj>)
    requires m.Complete() && m.marked <= m.L.block.Keys && before <= m.L.block.Keys
    requires m.marked == Live(m.L, m.mem, before)
    ensures m.marked == Live(m.L, m.mem, m.marked)
  {
    var roots, kept := RootTargets(m.L, m.mem), set o <- before | m.L.IsUncollectable(o);
    var now := set o <- m.marked | m.L.IsUncollectable(o);
    forall o | o in kept ensures o in now {
      SeedReachable(m.L, m.mem, roots + kept, o);
    }
    forall o | o in m.marked ensures Reachable(m.L, m.mem, roots + now, o) {
      var p :| ReachesBy(m.L, m.mem, roots + kept, p, o);
      assert ReachesBy(m.L, m.mem, roots + now, p, o);
    }
    forall o | o in m.L.block && Reachable(m.L, m.mem, roots + now, o) ensures o in m.marked {
      var p :| ReachesBy(m.L, m.mem, roots + now, p, o);
      assert ReachesBy(m.L, m.mem, roots + m.marked, p, o);
    }
  }

  lemma EnteredMeans(m: Marker, before: MarkState)
    ensures m.Entered(before) ==>
              && (m.state == MS_ROOTS_PUSHED && before != MS_ROOTS_PUSHED ==>
                    RootCount(m.L, m.L.statics) <= m.stack.Length)
              && (m.state == MS_PUSH_RESCUERS ==> before == MS_PUSH_RESCUERS)
  {
  }

  lemma InBlocks(m: Marker)
    requires m.Base()
    ensures m.marked <= m.L.block.Keys
  {
    hide Inv, Shape;
  }

  // After the marks are cleared, what may be marked is what is reachable from the roots and the marks left.
  lemma Bounded(m: Marker, before: set<Obj>)
    requires m.Valid() && m.state == MS_INVALID && m.depth == 0 && before <= m.L.block.Keys
    requires m.marked == (set o <- before | m.L.IsUncollectable(o))
    ensures m.marked == Kept(m.L, before)
    ensures Within(m.V(Nothing), ReachSet(m.L, m.mem, RootTargets(m.L, m.mem) + Kept(m.L, before)))
  {
    hide Inv, Within, Layout.WellFormed;
    RootsInHeap(m);
    ReachBounds(m.V(Nothing), RootTargets(m.L, m.mem) + m.marked);
  }

  lemma RootsInHeap(m: Marker)
    requires m.Base()
    ensures RootTargets(m.L, m.mem) <= m.L.block.Keys
  {
    hide Inv;
  }

  lemma StaysReady(m: Marker)
    ensures m.Valid() && (m.incremental || m.state == MS_NONE) ==> m.Ready()
    ensures m.Base() && !m.incremental && m.state == MS_INVALID ==> m.Ready()
    ensures m.Valid() ==> m.Base()
  {
    hide Inv, Shape;
  }

  lemma ExactMarks(m: Marker, before: set<Obj>)
    requires m.Complete() && before <= m.L.block.Keys && Kept(m.L, before) <= m.marked
    requires Within(m.V(Nothing), ReachSet(m.L, m.mem, RootTargets(m.L, m.mem) + Kept(m.L, before)))
    ensures m.marked == Live(m.L, m.mem, before)
  {
    hide Within, Marker.Complete, Kept, ReachSet, RootTargets;
    RootsMarked(m);
    ExactSeeds(m, RootTargets(m.L, m.mem) + Kept(m.L, before));
  }

  lemma RootsMarked(m: Marker)
    requires m.Complete()
    ensures RootTargets(m.L, m.mem) <= m.marked
  {
  }

  lemma IsClosed(m: Marker)
    requires m.Valid()
    ensures m.Complete() ==> m.marked == ReachSet(m.L, m.mem, RootTargets(m.L, m.mem) + m.marked)
  {
    hide Inv, Shape;
    if m.Complete() {
      forall o | o in m.marked ensures o in ReachSet(m.L, m.mem, RootTargets(m.L, m.mem) + m.marked) {
        SeedReachable(m.L, m.mem, RootTargets(m.L, m.mem) + m.marked, o);
      }
    }
  }

  lemma ExactSeeds(m: Marker, seeds: set<Obj>)
    requires m.Complete() && RootTargets(m.L, m.mem) <= seeds <= m.marked
    requires Within(m.V(Nothing), ReachSet(m.L, m.mem, seeds))
    ensures m.marked == ReachSet(m.L, m.mem, seeds)
  {
    forall o | o in ReachSet(m.L, m.mem, seeds) ensures o in m.marked {
      var p :| ReachesBy(m.L, m.mem, seeds, p, o);
      assert ReachesBy(m.L, m.mem, RootTargets(m.L, m.mem) + m.marked, p, o);
    }
  }

  // A partial collection may mark what is reachable from the roots and the marked objects.
  lemma BoundedNow(m: Marker)
    requires m.Valid() && m.state == MS_NONE
    ensures Within(m.V(Nothing), ReachSet(m.L, m.mem, RootTargets(m.L, m.mem) + m.marked))
  {
    hide Inv, Within, Layout.WellFormed;
    RootsInHeap(m);
    ReachBounds(m.V(Nothing), RootTargets(m.L, m.mem) + m.marked);
  }

  lemma IsReady(m: Marker)
    requires m.Ready()
    ensures m.Base() && (if m.incremental then m.Valid() else m.state in {MS_NONE, MS_INVALID})
    ensures m.incremental && m.state == MS_NONE ==> m.depth == 0
  {
    hide Inv, Shape;
  }

  lemma RootsFitMeans(m: Marker)
    ensures m.RootsFit() <==> if m.incremental then m.VeryFewRoots() else m.FewRoots()
  {
  }

  /****** too many roots for an incremental collection ******/

  // No objects, and n root segments of two pages each.
  function Segmented(n: nat): Layout {
    Layout([], map[], (map i: nat | i < n :: Static(i) := 2 * HBLK_WORDS)[Stacks := 0], map[], n, seq(n, i => 0), 0, 0)
  }

  function SegmentedMemory(n: nat): map<Area, seq<Word>> {
    (map i: nat | i < n :: Static(i) := seq(2 * HBLK_WORDS, k => 0))[Stacks := []]
  }

  lemma SegmentedWellFormed(n: nat)
    ensures Segmented(n).WellFormed() && SegmentedMemory(n).Keys == Segmented(n).words.Keys
    ensures forall a <- SegmentedMemory(n) :: |SegmentedMemory(n)[a]| == Segmented(n).words[a]
  {
    var L := Segmented(n);
    forall a ensures (a in L.words <==> L.IsArea(a)) && (a in SegmentedMemory(n) <==> L.IsArea(a)) {
      match a
      case Static(i) =>
      case _ =>
    }
  }

  // Whole they need an entry each, page by page two.
  lemma {:induction false} SegmentedDepth(n: nat, i: nat, len: nat)
    requires i <= n
    ensures RootCount(Segmented(n), i) == i && RootsDepth(Segmented(n), i, 0, len, false) >= 2 * i
  {
    if i > 0 {
      SegmentedDepth(n, i - 1, len);
      assert SegmentWords(Segmented(n), i - 1) == 2 * HBLK_WORDS && SegmentOffset(Segmented(n), i - 1) == 0;
    }
  }

  // A full collection copes with them, and the next one, which only looks at what was written, aborts.
  method PartialAborts(n: nat) returns (m: Marker, first: Outcome, second: Outcome)
    requires INITIAL_MARK_STACK_SIZE / 2 < n <= 3 * (INITIAL_MARK_STACK_SIZE / 4)
    ensures RootCount(m.L, m.L.statics) == n && first == Done && second == Abort
  {
    hide *;
    SegmentedWellFormed(n);
    SegmentedDepth(n, n, INITIAL_MARK_STACK_SIZE);
    m := new Marker(Segmented(n), SegmentedMemory(n), true);
    Starts(m, n);
    var c := new Collector(m, false);
    first := c.FullCollection(Never, _ => false);
    NeverStops(0, c.polls);
    AfterFull(m);
    m.InitiateGc();
    IsCrowded(m, n);
    second := m.MarkSome(false, {});
  }

  lemma Starts(m: Marker, n: nat)
    requires m.Valid() && m.L == Segmented(n)
    ensures m.Base() && |m.L.blocks| == 0 && m.L.statics == n
    ensures n <= 3 * (INITIAL_MARK_STACK_SIZE / 4) && RootCount(m.L, m.L.statics) == n ==> m.FewRoots()
  {
    hide Inv, Shape, RootCount;
  }

  lemma AfterFull(m: Marker)
    requires m.Ready() && m.incremental && m.state == MS_NONE
    ensures m.Base() && m.Valid() && m.depth == 0
  {
    hide Inv, Shape;
  }

  lemma IsCrowded(m: Marker, n: nat)
    requires m.Valid() && m.L == Segmented(n) && m.state == MS_PUSH_RESCUERS && m.depth == 0
    requires m.stack.Length == INITIAL_MARK_STACK_SIZE && INITIAL_MARK_STACK_SIZE / 2 < n
    ensures m.WillAbort(false)
  {
    SegmentedDepth(n, n, INITIAL_MARK_STACK_SIZE);
    hide Inv, Shape, RootsDepth;
  }
}
