/** Collection with parallel marking (GC_parallel): in MS_ROOTS_PUSHED, GC_mark_some hands the mark stack to
 *  GC_do_parallel_mark.  The threads of every mark phase are scheduled in an arbitrary but fair way.
 */
module CollectInParallel {
  import opened Common
  import opened MarkDefs
  import opened Marker
  import opened Collector
  import Par = ParallelMark
  import ParallelProgress

  // The areas that MS_ROOTS_PUSHED exempts from the invariant, because they were written.
  ghost function Unsettled(v: View): set<Area>
    requires v.L.WellFormed() && v.mem.Keys == v.L.words.Keys
  {
    set a <- v.mem.Keys | if a.Heap? then v.L.block[a.o] in v.dirty else a in v.rootsDirty
  }

  // The invariant of MS_ROOTS_PUSHED is what parallel marking starts from.
  lemma StartsParallel(v: View, cf: Par.Config, s: Par.State)
    requires Inv(v, MS_ROOTS_PUSHED, 0, v.L.statics + 1) && v.hand == Nothing && v.extra == {}
    requires cf.L == v.L && cf.mem == v.mem && cf.exempt == Unsettled(v)
    requires s.g.marked == v.marked && s.g.stack == Par.Slots(v.st)
    ensures Par.GoodConfig(cf) && Par.NoneLost(cf, s)
  {
    forall a, k | Par.Owed(cf, v.marked, a) && 0 <= k < |cf.mem[a]|
      ensures Par.Followed(cf, v.marked, a, k) || Par.Pending(s, a, k)
    {
      assert Due(v, a) && !Exempt(v, MS_ROOTS_PUSHED, 0, v.L.statics + 1, a);
      assert Settled(v, a, k);
      if OnStack(v.st, a, k) {
        var i :| 0 <= i < |v.st| && Covers(v.st[i], a, k);
        assert s.g.stack[i] == Par.Slot(v.st[i], true);
        assert Par.OnGlobal(s.g.stack, a, k);
      }
    }
  }

  // What parallel marking leaves satisfies the invariant of MS_NONE.
  lemma EndsParallel(v: View, w: View, cf: Par.Config)
    requires Shape(v) && v.extra == {} && w == v.(marked := w.marked, st := [], hand := Nothing)
    requires w.marked <= v.L.block.Keys
    requires cf.L == v.L && cf.mem == v.mem && cf.exempt == Unsettled(v)
    requires forall a, k :: Par.Owed(cf, w.marked, a) && 0 <= k < |cf.mem[a]| ==> Par.Followed(cf, w.marked, a, k)
    ensures Inv(w, MS_NONE, 0, w.L.statics + 1)
  {
    forall a, k | a in w.mem && Due(w, a) && !Exempt(w, MS_NONE, 0, w.L.statics + 1, a) && 0 <= k < |w.mem[a]|
      ensures Settled(w, a, k)
    {
      assert Par.Owed(cf, w.marked, a);
      assert Par.Followed(cf, w.marked, a, k);
    }
  }

  lemma StepInBlock(cf: Par.Config, s: Par.State, t: nat, c: Par.Choice)
    requires Par.ParInv(cf, s) && t < |s.ts| && s.g.marked <= cf.L.block.Keys
    ensures Par.Step(cf, s, t, c).g.marked <= cf.L.block.Keys
  {
    assert Par.LocalInv(cf, s.g, s.ts[t], t);
    if !s.ts[t].pc.Marking? {
      hide Par.LocalInv;
      OnlyMarkingMarks(cf, s.g, s.ts[t], t, c);
    }
  }

  lemma OnlyMarkingMarks(cf: Par.Config, g: Par.Shared, th: Par.Thread, t: nat, c: Par.Choice)
    requires !th.pc.Marking?
    ensures Par.ThreadStep(cf, g, th, t, c).0.marked == g.marked
  {
  }

  lemma {:induction false} RunInBlock(cf: Par.Config, s: Par.State, sched: seq<Par.Turn>)
    requires Par.Init(cf, s) && s.g.marked <= cf.L.block.Keys
    ensures s.g.marked <= Par.Run(cf, s, sched).g.marked <= cf.L.block.Keys
  {
    if sched != [] {
      var less, u := sched[..|sched| - 1], sched[|sched| - 1];
      RunInBlock(cf, s, less);
      Par.RunKeeps(cf, s, less);
      var s' := Par.Run(cf, s, less);
      if u.t < |s'.ts| {
        StepInBlock(cf, s', u.t, u.c);
        assert Par.LocalInv(cf, s'.g, s'.ts[u.t], u.t);
        Par.MoveGood(cf, s'.g, s'.ts[u.t], u.t, u.c);
      }
    }
  }

  // Marking stays inside every bound on what marking may reach.
  lemma RunWithin(v: View, cf: Par.Config, s: Par.State, sched: seq<Par.Turn>, bound: set<Obj>)
    requires Within(v, bound) && v.extra == {} && cf.L == v.L && cf.mem == v.mem
    requires s.g.marked == v.marked && s.g.stack == Par.Slots(v.st)
    requires forall t :: 0 <= t < |s.ts| ==> s.ts[t].local == [] && s.ts[t].hand == Nothing && !s.ts[t].pc.Marking?
    ensures Par.Run(cf, s, sched).g.marked <= bound
  {
    forall j | 0 <= j < |s.g.stack| ensures Par.InBound(cf, bound, s.g.stack[j].e.area) {
      assert MayScan(v, bound, v.st[j].area);
    }
    forall a, k | a in cf.mem && Par.InBound(cf, bound, a) && 0 <= k < |cf.mem[a]| && cf.mem[a][k] in cf.L.resolve
      ensures cf.L.resolve[cf.mem[a][k]] in bound
    {
      assert MayScan(v, bound, a);
    }
    Par.OnlyReachableMarked(cf, bound, s, sched);
  }

  class ParallelCollector {
    const m: Marker
    const threads: nat                     // the initiator and the threads that may help
    const markers: nat                     // GC_markers
    const turns: nat -> nat -> Par.Turn    // what the scheduler does in each mark phase
    var markNo: nat                        // GC_mark_no
    var drops: nat                         // mark phases so far in which entries were dropped

    constructor (marker: Marker, helpers: nat, most: nat, scheduler: nat -> nat -> Par.Turn)
      ensures m == marker && threads == helpers + 1 && markers == most && turns == scheduler
      ensures markNo == 0 && drops == 0
    {
      m, threads, markers, turns, markNo, drops := marker, helpers + 1, most, scheduler, 0, 0;
    }

    // In every mark phase each thread gets turns again and again, and not only wakeups for no reason.
    ghost predicate Scheduled() {
      threads > 0 && forall phase: nat :: ParallelProgress.GoodSchedule(turns(phase), threads)
    }

    // GC_do_parallel_mark is about to be entered.
    function Entry(stack: seq<MarkDefs.Entry>): (s: Par.State)
      reads m`marked
    {
      Par.State(
        Par.Shared(Par.Slots(stack), 0, 0, 0, false, false, m.marked, -1, {}, false),
        seq(threads, i => Par.Thread(if i == 0 then Par.Start else Par.Idle, [], Nothing, 0)))
    }

    ghost function Configuration(): Par.Config
      requires m.Base()
      reads m, m.stack
    {
      Par.Config(m.L, m.mem, Unsettled(m.V(Nothing)), m.stack.Length, markers)
    }

    lemma Begins(s: Par.State)
      requires m.Valid() && m.state == MS_ROOTS_PUSHED && threads > 0 && s == Entry(m.St())
      ensures Par.Init(Configuration(), s)
    {
      StartsParallel(m.V(Nothing), Configuration(), s);
    }

    // The threads are going to drop entries in the mark phase that is about to begin.
    ghost predicate WillDrop()
      requires m.Base()
      reads this, m, m.stack
    {
      var cf, s0, turn := Configuration(), Entry(m.St()), turns(markNo);
      exists n: nat :: ParallelProgress.Ends(cf, s0, turn, n) && ParallelProgress.After(cf, s0, turn, n).g.invalid
    }

    lemma Drops(cf: Par.Config, s0: Par.State, n: nat)
      requires m.Base() && cf == Configuration() && s0 == Entry(m.St())
      requires ParallelProgress.Ends(cf, s0, turns(markNo), n)
      ensures WillDrop() <==> ParallelProgress.After(cf, s0, turns(markNo), n).g.invalid
    {
      hide ParallelProgress.Ends, ParallelProgress.After;
      if WillDrop() {
        var k: nat :| ParallelProgress.Ends(cf, s0, turns(markNo), k)
                      && ParallelProgress.After(cf, s0, turns(markNo), k).g.invalid;
        ParallelProgress.EndsOnce(cf, s0, turns(markNo), n, k);
      }
    }

    // When GC_do_parallel_mark returns, either the marks are closed or MS_INVALID is set.
    lemma Finishes(s0: Par.State, s: Par.State, sched: seq<Par.Turn>, bound: set<Obj>)
      requires m.Valid() && m.state == MS_ROOTS_PUSHED && threads > 0 && s0 == Entry(m.St())
      requires s == Par.Run(Configuration(), s0, sched) && |s.ts| > 0 && s.ts[0].pc.Finished?
      ensures m.marked <= s.g.marked <= m.L.block.Keys
      ensures Within(m.V(Nothing), bound) ==> s.g.marked <= bound
      ensures !s.g.invalid ==> Inv(m.V(Nothing).(marked := s.g.marked, st := []), MS_NONE, 0, m.L.statics + 1)
    {
      var cf, v := Configuration(), m.V(Nothing);
      Begins(s0);
      hide Inv, Within, Par.Run, Par.Init, Par.Owed, Par.Followed;
      RunInBlock(cf, s0, sched);
      if Within(v, bound) { RunWithin(v, cf, s0, sched, bound); }
      Par.ParallelMarkDone(cf, s0, sched);
      if !s.g.invalid { EndsParallel(v, v.(marked := s.g.marked, st := []), cf); }
    }

    // The marker is then in order.
    lemma Returns(v: View, bound: set<Obj>)
      requires Shape(v) && v.hand == Nothing && m.V(Nothing) == v.(marked := m.marked, st := [])
      requires m.marked <= m.L.block.Keys
      requires m.depth == 0 && m.stack.Length >= INITIAL_MARK_STACK_SIZE && m.scan == 0 && m.objectsAreMarked
      requires (!m.incremental ==> m.dirty == {}) && m.extra == {}
      requires m.state == MS_INVALID || (m.state == MS_NONE && Inv(m.V(Nothing), MS_NONE, 0, m.L.statics + 1))
      ensures m.Valid()
      ensures Within(v, bound) && m.marked <= bound ==> Within(m.V(Nothing), bound)
    {
      InvalidInv(m.V(Nothing), 0, 0);
      InvalidInv(m.V(Nothing), 0, m.L.statics + 1);
      hide Inv;
    }

    lemma InOrder()
      requires m.Valid() && m.state == MS_ROOTS_PUSHED
      ensures m.Base() && Shape(m.V(Nothing)) && m.stack.Length >= INITIAL_MARK_STACK_SIZE && m.scan == 0
      ensures m.objectsAreMarked
      ensures (!m.incremental ==> m.dirty == {}) && m.extra == {} && m.depth <= m.stack.Length
      ensures m.St() == m.stack[..m.depth] && m.L.WellFormed()
      ensures m.V(Nothing)
           == View(m.L, m.mem, m.marked, m.St(), Nothing, m.dirty, m.grungy, m.rootsDirty, m.extra)
      ensures m.V(Nothing).L == m.L && m.V(Nothing).mem == m.mem && m.mem.Keys == m.L.words.Keys
    {
      hide Inv;
    }

    // GC_do_parallel_mark on the marker's stack.
    method Phase(ghost bound: set<Obj>) returns (s: Par.State)
      requires m.Valid() && m.state == MS_ROOTS_PUSHED && Scheduled()
      modifies `markNo
      ensures markNo == old(markNo) + 1
      ensures m.Base() && (s.g.invalid <==> old(WillDrop()))
      ensures m.marked <= s.g.marked <= m.L.block.Keys
      ensures Within(m.V(Nothing), bound) ==> s.g.marked <= bound
      ensures !s.g.invalid ==> Inv(m.V(Nothing).(marked := s.g.marked, st := []), MS_NONE, 0, m.L.statics + 1)
    {
      InOrder();
      hide *;
      var cf := Par.Config(m.L, m.mem, Unsettled(m.V(Nothing)), m.stack.Length, markers);
      var s0 := Entry(m.stack[..m.depth]);
      Begins(s0);
      InTime(m.stack[..m.depth], s0);
      var n;
      s, n := ParallelProgress.DoParallelMark(cf, s0, turns(markNo));
      IsConfiguration(cf);
      IsRun(cf, s0, n);
      Drops(cf, s0, n);
      HasReturned(cf, s0, n);
      Finishes(s0, s, ParallelProgress.Turns(turns(markNo), n), bound);
      markNo := markNo + 1;
    }

    lemma HasReturned(cf: Par.Config, s0: Par.State, n: nat)
      requires ParallelProgress.Ends(cf, s0, turns(markNo), n)
      ensures var s := ParallelProgress.After(cf, s0, turns(markNo), n); |s.ts| > 0 && s.ts[0].pc.Finished?
    {
      hide ParallelProgress.After;
    }

    lemma InTime(st: seq<MarkDefs.Entry>, s0: Par.State)
      requires Scheduled() && s0 == Entry(st)
      ensures threads > 0 && ParallelProgress.GoodSchedule(turns(markNo), |s0.ts|)
    {
      hide ParallelProgress.GoodSchedule;
    }

    lemma IsRun(cf: Par.Config, s0: Par.State, n: nat)
      ensures ParallelProgress.After(cf, s0, turns(markNo), n)
           == Par.Run(cf, s0, ParallelProgress.Turns(turns(markNo), n))
    {
    }

    lemma IsConfiguration(cf: Par.Config)
      requires m.Base() && cf == Par.Config(m.L, m.mem, Unsettled(m.V(Nothing)), m.stack.Length, markers)
      ensures cf == Configuration()
    {
    }

    // What the marker looks like when only marks and stack have changed.
    lemma Emptied(v: View, marked: set<Obj>)
      requires v == View(m.L, m.mem, v.marked, v.st, Nothing, m.dirty, m.grungy, m.rootsDirty, m.extra)
      requires m.marked == marked && m.depth == 0
      ensures m.V(Nothing) == v.(marked := marked, st := [])
    {
    }

    // The case MS_ROOTS_PUSHED of GC_mark_some.
    method MarkInParallel(grow: bool, ghost bound: set<Obj>) returns (r: Outcome)
      requires m.Valid() && m.state == MS_ROOTS_PUSHED && Scheduled()
      modifies `markNo, `drops, m`marked, m`depth, m`state, m`tooSmall, m`stack
      ensures markNo == old(markNo) + 1 && (r == Done <==> !old(m.Base() && WillDrop()))
      ensures drops == old(drops) + if r == More then 1 else 0
      ensures m.stack == old(m.stack) || fresh(m.stack)
      ensures m.Valid() && m.depth == 0 && !m.tooSmall && m.objectsAreMarked && old(m.marked) <= m.marked
      ensures r == Done ==> m.state == MS_NONE && Inv(m.V(Nothing), MS_NONE, 0, m.L.statics + 1)
      ensures r != Done ==> r == More && m.state == MS_INVALID
      ensures m.stack.Length == (if grow && (r == More || old(m.tooSmall)) then 2 else 1) * old(m.stack.Length)
      ensures old(Within(m.V(Nothing), bound)) ==> Within(m.V(Nothing), bound)
    {
      hide *;
      ghost var v := m.V(Nothing);
      InOrder();
      var s := Phase(bound);
      m.marked, m.depth := s.g.marked, 0;
      if s.g.invalid {
        m.state, m.tooSmall := MS_INVALID, true;
        drops := drops + 1;
      }
      if m.tooSmall {
        m.GrowStack(grow);
      }
      if m.state == MS_ROOTS_PUSHED {
        m.state := MS_NONE;
        r := Done;
      } else {
        r := More;
      }
      Emptied(v, s.g.marked);
      Returns(v, bound);
    }

    // So much is on the stack already that marking has to come before the scan goes on.
    predicate Full()
      reads m`state, m`depth, m`stack
    {
      m.AlmostFull() || (m.state == MS_PUSH_UNCOLLECTABLE && m.depth - 1 >= m.stack.Length / 4)
    }

    // GC_mark_some with GC_parallel.  All steps but those in MS_ROOTS_PUSHED make the marker's measure smaller; that
    // one completes the phase unless entries were dropped.
    method MarkSome(grow: bool, ghost bound: set<Obj>) returns (r: Outcome)
      requires m.Valid() && Scheduled()
      modifies `markNo, `drops, m`marked, m`depth, m`state, m`tooSmall, m`objectsAreMarked, m`scan, m`stack, m.stack
      ensures m.stack == old(m.stack) || fresh(m.stack)
      ensures r == Abort <==> old(m.WillAbort(grow))
      ensures r != Abort ==> m.Valid() && old(m.marked) <= m.marked
      ensures r != Abort && old(m.state) != MS_PUSH_RESCUERS ==> m.state != MS_PUSH_RESCUERS
      ensures r == Done <==> old(m.state == MS_ROOTS_PUSHED && m.Base() && !WillDrop())
      ensures r == Done ==>
                m.state == MS_NONE && m.depth == 0 && m.objectsAreMarked &&
                    Inv(m.V(Nothing), MS_NONE, 0, m.L.statics + 1)
      ensures r == More && old(m.state) != MS_NONE ==> m.state != MS_NONE
      ensures r == More && old(m.state) !in {MS_NONE, MS_ROOTS_PUSHED} ==> Less(m.Left(), old(m.Left()))
      ensures r == More && old(m.state) == MS_ROOTS_PUSHED ==>
                m.state == MS_INVALID && m.stack.Length == (if grow then 2 else 1) * old(m.stack.Length)
      ensures r == Done || (r == More && old(m.Restarts())) ==>
                m.stack.Length == (if grow && old(m.tooSmall) then 2 else 1) * old(m.stack.Length)
      ensures r == More && old(!m.Restarts() && m.state != MS_ROOTS_PUSHED) ==>
                && m.stack == old(m.stack) && (old(m.tooSmall || Full()) ==> m.tooSmall)
                && (m.tooSmall ==> old(m.tooSmall || Full()) || m.state == MS_INVALID)
      ensures drops == old(drops) + if r == More && old(m.state) == MS_ROOTS_PUSHED then 1 else 0
      ensures r != Abort && old(Within(m.V(Nothing), bound)) ==> Within(m.V(Nothing), bound)
    {
      hide Inv, Within, Shape, Layout.WellFormed, Marker.Valid, Marker.Left, Less, WillDrop,
           Marker.NoneWanted, Marker.TooManyRoots;
      InBase();
      if m.state == MS_ROOTS_PUSHED {
        r := MarkInParallel(grow, bound);
      } else {
        if m.state == MS_PUSH_UNCOLLECTABLE && m.depth - 1 >= m.stack.Length / 4 {
          m.WantLargerStack(bound);
        }
        r := m.MarkSome(grow, bound);
      }
    }

    lemma InBase()
      requires m.Valid()
      ensures m.Base()
    {
      hide Inv, Shape;
    }

    // GC_stopped_mark with GC_parallel, until it is done or, for the nth time, the threads have dropped entries in a
    // mark phase.
    method StoppedMark(n: nat, grow: nat -> bool, ghost bound: set<Obj>) returns (r: Outcome)
      requires m.Base() && m.state == MS_INVALID && Scheduled()
      modifies `markNo, `drops, m`marked, m`depth, m`state, m`tooSmall, m`objectsAreMarked, m`scan, m`stack, m.stack,
               m`dirty, m`grungy, m`rootsDirty
      ensures m.stack == old(m.stack) || fresh(m.stack)
      ensures m.FewRoots() ==> r != Abort
      ensures r != Abort ==> m.Valid() && old(m.marked) <= m.marked
      ensures r == Done ==> m.state == MS_NONE && m.Complete() && m.Quiet() && drops < old(drops) + n
      ensures r == More ==> m.state == MS_INVALID && drops == old(drops) + n
      ensures r != Abort && old(Within(m.V(Nothing), bound)) ==> Within(m.V(Nothing), bound)
    {
      hide *;
      m.InitiateGc();
      var i: nat := 0;
      var last := drops + n;
      r := More;
      while r == More && drops < last
        invariant m.FewRoots() ==> r != Abort
        invariant drops <= last && (r == Done ==> drops < last)
        invariant r == More && drops == last ==> m.state == MS_INVALID
        invariant r == More ==> m.state != MS_PUSH_RESCUERS
        invariant r == More ==> m.Valid() && m.state != MS_NONE && m.dirty == {} && m.rootsDirty == {}
        invariant r == Done ==> m.Valid() && m.state == MS_NONE && m.Complete() && m.Quiet()
        invariant m.stack == old(m.stack) || fresh(m.stack)
        invariant r != Abort ==> old(m.marked) <= m.marked
        invariant r != Abort && old(Within(m.V(Nothing), bound)) ==> Within(m.V(Nothing), bound)
        decreases r == More, last - drops, m.Left().unmarked, m.Left().rank, m.Left().blocksLeft, m.Left().work
      {
        ghost var left := m.Left();
        m.FewRootsFit(grow(i));
        r := MarkSome(grow(i), bound);
        if r == More && m.state != MS_NONE { MaybeLess(m.Left(), left); }
        if r == Done {
          m.DoneIsComplete();
          m.DoneIsQuiet();
        }
        i := i + 1;
      }
    }

    // A full collection with parallel marking: unless the threads drop entries in n mark phases, it gets done, however
    // they are scheduled, and exactly what is reachable is marked.
    method FullCollection(n: nat, grow: nat -> bool) returns (r: Outcome)
      requires m.Base() && Scheduled()
      modifies `markNo, `drops, m`marked, m`depth, m`state, m`tooSmall, m`objectsAreMarked, m`scan, m`stack, m.stack,
               m`dirty, m`grungy, m`rootsDirty
      ensures m.FewRoots() ==> r != Abort
      ensures r != Abort ==> m.Valid()
      ensures r == More ==> drops == old(drops) + n
      ensures r == Done ==>
                && m.state == MS_NONE && m.Complete() && m.Quiet() && drops < old(drops) + n
                && old(m.marked) <= m.L.block.Keys && m.marked == Live(m.L, m.mem, old(m.marked))
    {
      hide *;
      InBlocks(m);
      ghost var before := m.marked;
      ghost var bound := ReachSet(m.L, m.mem, RootTargets(m.L, m.mem) + Kept(m.L, before));
      m.InvalidateMarkState();
      m.ClearMarks();
      Bounded(m, before);
      StaysReady(m);
      r := StoppedMark(n, grow, bound);
      if r == Done { ExactMarks(m, before); }
    }
  }

  lemma MaybeLess(l: Measure, l0: Measure)
    ensures Less(l, l0) ==>
              || l.unmarked < l0.unmarked
              || (l.unmarked == l0.unmarked
                  && (l.rank < l0.rank
                      || (l.rank == l0.rank
                          && (l.blocksLeft < l0.blocksLeft || (l.blocksLeft == l0.blocksLeft && l.work < l0.work)))))
  {
  }
}
