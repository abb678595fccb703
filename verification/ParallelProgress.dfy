/** Parallel marking comes to its end: no wakeup is lost, every step that changes anything gets nearer to the end,
 *  and GC_do_parallel_mark returns under every schedule that gives each thread turns again and again.
 */
module ParallelProgress {
  import opened Common
  import opened MarkDefs
  import opened ParallelMark

  /****** what is left to do, in order of weight ******/

  // The stretches of its way that a thread passes only once.
  function Effort(pc: PC): nat {
    match pc
    case Idle => 20
    case Start => 12
    case Enter => 10
    case EnterL => 9
    case NotifyEnd => 4
    case Await | AwaitL => 2
    case Gone | Finished => 0
    case _ => 5
  }

  // The thread is about to mark an object that another one has marked meanwhile.
  function Stale(marked: set<Obj>, pc: PC): nat {
    if pc.Marking? && pc.o in marked then 1 else 0
  }

  // Entries of a global stack of n entries that the thread has not passed.
  function Gap(n: nat, th: Thread): nat {
    if Placed(th.pc) && Place(th) <= n then n - Place(th) else 0
  }

  function Cost(n: nat): nat {
    n * n + 2 * n + 4
  }

  function Len(e: Entry): nat {
    if e.lo < e.hi then e.hi - e.lo else 0
  }

  function LocalLoad(es: seq<Entry>): nat {
    if es == [] then 0 else LocalLoad(es[..|es| - 1]) + Cost(Len(es[|es| - 1]))
  }

  function HandLoad(h: Hand): nat {
    if h.Hand? then (if h.lo < h.hi then 2 * (h.hi - h.lo) else 0) + 2 else 0
  }

  // The words the thread has before it.
  function Load(th: Thread): nat {
    LocalLoad(th.local) + HandLoad(th.hand)
  }

  // All entries are passed, but threads are active.
  function Flag(g: Shared): nat {
    if g.first == |g.stack| && g.active > 0 then 1 else 0
  }

  // The thread has given back entries and is about to wake the others.
  function Notice(pc: PC): nat {
    if pc.NotifyWork? then 1 else 0
  }

  // The order of the steps around the loop of GC_mark_local; it depends on whether the thread and
  // GC_first_nonempty have come to the end of the stack.  A thread that waits ranks low while it sleeps and the
  // others have work.
  function Rank(g: Shared, th: Thread, t: nat): nat {
    var atEnd := th.myFirst == |g.stack|;
    var allPassed := g.first == |g.stack|;
    match th.pc
    case Steal(p, high, taken, max) => if p < high && taken <= max then 1 else 41
    case Local => 40
    case Return(_) => 39
    case ReturnL(_) => 38
    case Waiting => if Flag(g) == 1 && t in g.asleep then 0 else 31
    case FinalL => if atEnd && Flag(g) == 1 then 30 else 23
    case TestL => 24
    case Look => if !atEnd then 15 else if allPassed then 29 else 22
    case Cas(seen) => if !atEnd then 14 else if g.first == seen then 21 else 28
    case ReadTop => if !atEnd then 13 else 27
    case Recheck => if !atEnd then 12 else 26
    case RecheckL => if !atEnd then 11 else 25
    case Scan => 1
    case Await => if allPassed && t in g.asleep then 1 else 3
    case AwaitL => if g.helpers > 0 then 2 else 0
    case _ => 0
  }

  // One move gets on, counted by what is left to do.
  ghost predicate Descends(cf: Config, g: Shared, th: Thread, t: nat, g': Shared, th': Thread) {
    || |g.stack| < |g'.stack| <= cf.size
    || (|g'.stack| == |g.stack| && Effort(th'.pc) < Effort(th.pc))
    || (Effort(th'.pc) == Effort(th.pc) && |g'.stack| == |g.stack| && g'.helpers == g.helpers
        && (NewMark(cf, g.marked, g'.marked) || (g'.marked == g.marked && Advances(g, th, t, g', th'))))
  }

  ghost predicate NewMark(cf: Config, marked: set<Obj>, marked': set<Obj>) {
    marked <= marked' && exists o :: o in cf.L.block && o !in marked && o in marked'
  }

  ghost predicate Advances(g: Shared, th: Thread, t: nat, g': Shared, th': Thread) {
    var n := |g.stack|;
    || Stale(g.marked, th'.pc) < Stale(g.marked, th.pc)
    || (Stale(g.marked, th'.pc) == Stale(g.marked, th.pc)
        && (|| Gap(n, th') < Gap(n, th)
            || (Gap(n, th') == Gap(n, th)
                && (Load(th') < Load(th) || (Load(th') == Load(th) && GoesOn(g, th, t, g', th'))))))
  }

  ghost predicate GoesOn(g: Shared, th: Thread, t: nat, g': Shared, th': Thread) {
    || Notice(th'.pc) < Notice(th.pc)
    || (Notice(th'.pc) == Notice(th.pc) && StepsOn(g, th, t, g', th'))
  }

  ghost predicate StepsOn(g: Shared, th: Thread, t: nat, g': Shared, th': Thread) {
    || g.first < g'.first <= |g.stack|
    || (g'.first == g.first
        && (|| Flag(g') < Flag(g)
            || (Flag(g') == Flag(g) && (g.first == |g.stack| ==> g'.asleep - {t} == g.asleep - {t})
                && Rank(g', th', t) < Rank(g, th, t))))
  }

  /****** every move that changes anything gets on ******/

  // It is the thread's turn: nobody else has the lock, and it need not wait for others.
  ghost predicate MayMove(g: Shared, th: Thread, t: nat) {
    && (g.lock == -1 || g.lock == t) && !th.pc.Idle? && !th.pc.Gone? && !th.pc.Finished?
    && (th.pc.Waiting? ==> t !in g.asleep && g.active == 0)
    && (th.pc.Await? ==> t !in g.asleep && g.helpers == 0)
  }

  // The thread gets on if it can move, and if its turn changes anything.
  ghost predicate GetsOn(cf: Config, g: Shared, th: Thread, t: nat, g': Shared, th': Thread) {
    MayMove(g, th, t) || g' != g || th' != th ==> Descends(cf, g, th, t, g', th')
  }

  lemma LoadPush(es: seq<Entry>, e: Entry)
    ensures LocalLoad(es + [e]) == LocalLoad(es) + Cost(Len(e))
  {
    assert (es + [e])[..|es|] == es;
  }

  // Two parts of a range with one word in common are less than the range.
  lemma PartsLighter(n: nat, a: nat, b: nat)
    requires a + b == n + 1 && 2 <= a && 2 <= b && n >= SPLIT_RANGE_WORDS
    ensures Cost(a) + Cost(b) < Cost(n)
  {
    assert (a + b) * (a + b) == a * a + b * b + 2 * (a * b);
    assert (a - 2) * (b - 2) >= 0;
    assert a * b >= 2 * (a + b) - 4;
    assert (a + b) * (a + b) == n * n + 2 * n + 1;
  }

  lemma CutLighter(n: nat)
    requires n >= SPLIT_RANGE_WORDS
    ensures Cost(n - (SPLIT_RANGE_WORDS - 1)) + 2 * (SPLIT_RANGE_WORDS - 1) + 2 < Cost(n)
  {
    var k := SPLIT_RANGE_WORDS - 1;
    assert n * n == (n - k) * (n - k) + 2 * k * (n - k) + k * k;
    assert 2 * k * (n - k) >= 0;
  }

  lemma {:induction false} DropLighter(es: seq<Entry>, k: nat)
    requires 0 < k <= |es|
    ensures LocalLoad(es[k..]) < LocalLoad(es)
  {
    hide Cost;
    var n := |es| - 1;
    if k <= n {
      assert es[k..][..n - k] == es[..n][k..];
      DropLighter(es[..n], k);
    } else {
      CostPositive(Len(es[n]));
    }
  }

  lemma CostPositive(n: nat)
    ensures Cost(n) > 0
  {
  }

  lemma JoinDescends(cf: Config, g: Shared, th: Thread, t: nat)
    requires LocalInv(cf, g, th, t)
    requires th.pc.Idle? || th.pc.Gone? || th.pc.Start? || th.pc.Enter? || th.pc.EnterL?
    ensures var (g', th') := JoinStep(cf, g, th, t); GetsOn(cf, g, th, t, g', th')
  {
  }

  // What these steps need of the invariant.
  ghost predicate AtLoop(g: Shared, th: Thread, t: nat) {
    && g.first <= |g.stack| && (Placed(th.pc) ==> th.myFirst <= |g.stack|)
    && (th.pc.Cas? ==> th.pc.seen < th.myFirst)
    && (Active(th.pc) ==> g.active > 0) && (HoldsLock(th.pc) <==> g.lock == t) && g.lock >= -1
    && (t in g.asleep ==> th.pc.Await? || (th.pc.Waiting? && g.active > 0))
  }

  lemma LoopFacts(cf: Config, g: Shared, th: Thread, t: nat)
    requires LocalInv(cf, g, th, t)
    requires th.pc.Look? || th.pc.Cas? || th.pc.ReadTop? || th.pc.Recheck? || th.pc.RecheckL?
             || th.pc.TestL? || th.pc.Waiting? || th.pc.FinalL?
    ensures AtLoop(g, th, t)
  {
    hide GoodWork, ValidEntry, Initiator;
  }

  lemma LookDescends(cf: Config, g: Shared, th: Thread, t: nat)
    requires LocalInv(cf, g, th, t)
    requires th.pc.Look? || th.pc.Cas? || th.pc.ReadTop?
    ensures var (g', th') := LookStep(g, th, t); GetsOn(cf, g, th, t, g', th')
  {
    hide LocalInv;
    LoopFacts(cf, g, th, t);
  }

  lemma RecheckDescends(cf: Config, g: Shared, th: Thread, t: nat)
    requires LocalInv(cf, g, th, t)
    requires th.pc.Recheck? || th.pc.RecheckL?
    ensures var (g', th') := LookStep(g, th, t); GetsOn(cf, g, th, t, g', th')
  {
    hide LocalInv;
    LoopFacts(cf, g, th, t);
  }

  lemma EndDescends(cf: Config, g: Shared, th: Thread, t: nat, c: Choice)
    requires LocalInv(cf, g, th, t) && !c.Rouse?
    requires th.pc.TestL? || th.pc.Waiting?
    ensures var (g', th') := EndStep(g, th, t, c); GetsOn(cf, g, th, t, g', th')
  {
    hide LocalInv;
    LoopFacts(cf, g, th, t);
  }

  lemma FinalDescends(cf: Config, g: Shared, th: Thread, t: nat, c: Choice)
    requires LocalInv(cf, g, th, t) && th.pc.FinalL?
    ensures var (g', th') := EndStep(g, th, t, c); GetsOn(cf, g, th, t, g', th')
  {
    hide LocalInv;
    LoopFacts(cf, g, th, t);
  }

  lemma NotifyDescends(cf: Config, g: Shared, th: Thread, t: nat)
    requires th.pc.NotifyWork? || th.pc.NotifyEnd?
    ensures var (g', th') := NotifyStep(g, th, t); Descends(cf, g, th, t, g', th')
  {
  }

  lemma AwaitDescends(cf: Config, g: Shared, th: Thread, t: nat, c: Choice)
    requires LocalInv(cf, g, th, t) && !c.Rouse? && (th.pc.Await? || th.pc.AwaitL? || th.pc.Finished?)
    ensures var (g', th') := AwaitStep(g, th, t, c); GetsOn(cf, g, th, t, g', th')
  {
  }

  lemma StealDescends(cf: Config, g: Shared, th: Thread, t: nat)
    requires LocalInv(cf, g, th, t) && th.pc.Steal?
    ensures var (g', th') := StealStep(g, th); Descends(cf, g, th, t, g', th')
  {
  }

  lemma ZeroDescends(cf: Config, g: Shared, th: Thread, t: nat)
    requires LocalInv(cf, g, th, t) && th.pc.Zero?
    ensures var (g', th') := ZeroStep(g, th); Descends(cf, g, th, t, g', th')
  {
  }

  lemma LocalDescends(cf: Config, g: Shared, th: Thread, t: nat, c: Choice)
    requires LocalInv(cf, g, th, t) && th.pc.Local?
    ensures Descends(cf, g, th, t, g, LocalStep(th, c))
  {
    hide Load, LocalInv, ValidEntry;
    LocalFacts(cf, g, th, t);
    if th.local != [] && !LocalStep(th, c).pc.Return? {
      TakeLighter(th, c);
    } else {
      SameLoad(th, LocalStep(th, c));
    }
  }

  lemma SameLoad(th: Thread, th': Thread)
    requires th'.local == th.local && th'.hand == th.hand
    ensures Load(th') == Load(th)
  {
  }

  lemma LocalFacts(cf: Config, g: Shared, th: Thread, t: nat)
    requires LocalInv(cf, g, th, t) && th.pc.Local?
    ensures th.hand == Nothing && g.lock != t
    ensures th.local != [] ==> var e := th.local[|th.local| - 1]; e.lo < e.hi
  {
    if th.local != [] { assert ValidEntry(cf.L, th.local[|th.local| - 1]); }
  }

  lemma TopLoad(es: seq<Entry>)
    requires es != []
    ensures LocalLoad(es) == LocalLoad(es[..|es| - 1]) + Cost(Len(es[|es| - 1]))
  {
  }

  lemma HalvesLighter(below: seq<Entry>, e: Entry)
    requires e.hi > e.lo + SHARE_WORDS
    ensures var half := (e.hi - e.lo) / 2;
            LocalLoad(below + [Entry(e.area, e.lo, e.lo + half + 1)] + [Entry(e.area, e.lo + half, e.hi)])
            < LocalLoad(below) + Cost(Len(e))
  {
    hide Cost, LocalLoad;
    var half := (e.hi - e.lo) / 2;
    PartsLighter(Len(e), half + 1, Len(e) - half);
    LoadPush(below, Entry(e.area, e.lo, e.lo + half + 1));
    LoadPush(below + [Entry(e.area, e.lo, e.lo + half + 1)], Entry(e.area, e.lo + half, e.hi));
  }

  lemma RestLighter(below: seq<Entry>, e: Entry)
    requires e.hi >= e.lo + SPLIT_RANGE_WORDS
    ensures var mid := e.lo + SPLIT_RANGE_WORDS - 1;
            LocalLoad(below + [Entry(e.area, mid, e.hi)]) + HandLoad(Hand(e.area, e.lo, mid, -1))
            < LocalLoad(below) + Cost(Len(e))
  {
    hide Cost, LocalLoad;
    CutLighter(Len(e));
    LoadPush(below, Entry(e.area, e.lo + SPLIT_RANGE_WORDS - 1, e.hi));
  }

  // Taking the top entry, or half of it, or its first words, makes the load less.
  lemma TakeLighter(th: Thread, c: Choice)
    requires th.pc.Local? && th.local != [] && th.hand == Nothing && !LocalStep(th, c).pc.Return?
    requires var e := th.local[|th.local| - 1]; e.lo < e.hi
    ensures Load(LocalStep(th, c)) < Load(th)
  {
    hide Cost, LocalLoad;
    var n := |th.local|;
    var e, below := th.local[n - 1], th.local[..n - 1];
    TopLoad(th.local);
    if e.hi > e.lo + SHARE_WORDS && n < LOCAL_MARK_STACK_SIZE {
      HalvesLighter(below, e);
    } else if e.hi >= e.lo + SPLIT_RANGE_WORDS {
      RestLighter(below, e);
    } else {
      SmallLighter(Len(e));
    }
  }

  lemma SmallLighter(n: nat)
    ensures 2 * n + 2 < Cost(n)
  {
  }

  lemma ScanDescends(cf: Config, g: Shared, th: Thread, t: nat)
    requires GoodConfig(cf) && LocalInv(cf, g, th, t) && th.pc.Scan?
    ensures Descends(cf, g, th, t, g, ScanStep(cf, g, th))
  {
  }

  lemma MarkDescends(cf: Config, g: Shared, th: Thread, t: nat)
    requires GoodConfig(cf) && LocalInv(cf, g, th, t) && th.pc.Marking?
    ensures var (g', th') := MarkStep(cf, g, th); Descends(cf, g, th, t, g', th')
  {
    assert cf.L.IsArea(Heap(th.pc.o));
    if th.pc.o !in g.marked {
      assert NewMark(cf, g.marked, g.marked + {th.pc.o});
    } else {
      assert g.marked + {th.pc.o} == g.marked;
    }
  }

  lemma ReturnDescends(cf: Config, g: Shared, th: Thread, t: nat)
    requires LocalInv(cf, g, th, t) && th.pc.ReturnL?
    ensures var (g', th') := ReturnStep(cf, g, th); Descends(cf, g, th, t, g', th')
  {
    DropLighter(th.local, th.pc.k);
    hide LocalLoad;
  }

  lemma AcquireDescends(cf: Config, g: Shared, th: Thread, t: nat)
    requires LocalInv(cf, g, th, t) && th.pc.Return?
    ensures var (g', th') := Acquire(g, th, t, ReturnL(th.pc.k)); GetsOn(cf, g, th, t, g', th')
  {
  }

  // Whatever a thread chooses, its turn either changes nothing or gets on.
  lemma MoveDescends(cf: Config, g: Shared, th: Thread, t: nat, c: Choice)
    requires GoodConfig(cf) && LocalInv(cf, g, th, t) && !c.Rouse?
    ensures var (g', th') := ThreadStep(cf, g, th, t, c); GetsOn(cf, g, th, t, g', th')
  {
    hide Descends, LocalInv, GoodConfig;
    match th.pc {
      case Idle | Gone | Start | Enter | EnterL => JoinDescends(cf, g, th, t);
      case Look | Cas(_) | ReadTop => LookDescends(cf, g, th, t);
      case Recheck | RecheckL => RecheckDescends(cf, g, th, t);
      case TestL | Waiting => EndDescends(cf, g, th, t, c);
      case FinalL => FinalDescends(cf, g, th, t, c);
      case NotifyWork(_) | NotifyEnd => NotifyDescends(cf, g, th, t);
      case Await | AwaitL | Finished => AwaitDescends(cf, g, th, t, c);
      case Steal(_, _, _, _) => StealDescends(cf, g, th, t);
      case Zero(_, _, _, _) => ZeroDescends(cf, g, th, t);
      case Local => LocalDescends(cf, g, th, t, c);
      case Scan => ScanDescends(cf, g, th, t);
      case Marking(_) => MarkDescends(cf, g, th, t);
      case Return(_) => AcquireDescends(cf, g, th, t);
      case ReturnL(_) => ReturnDescends(cf, g, th, t);
    }
  }

  /****** all threads together ******/

  datatype Column = Efforts | Stales | Gaps | Loads | Notices | Ranks

  function Weight(c: Column, g: Shared, th: Thread, t: nat): nat {
    match c
    case Efforts => Effort(th.pc)
    case Stales => Stale(g.marked, th.pc)
    case Gaps => Gap(|g.stack|, th)
    case Loads => Load(th)
    case Notices => Notice(th.pc)
    case Ranks => Rank(g, th, t)
  }

  function Sum(c: Column, g: Shared, ts: seq<Thread>): nat {
    if ts == [] then 0 else Sum(c, g, ts[..|ts| - 1]) + Weight(c, g, ts[|ts| - 1], |ts| - 1)
  }

  // The weights of all threads but t stay what they are.
  ghost predicate OthersWeigh(c: Column, g: Shared, g': Shared, t: nat) {
    forall th, u: nat :: u != t ==> Weight(c, g', th, u) == Weight(c, g, th, u)
  }

  lemma {:induction false} SumFrame(c: Column, g: Shared, g': Shared, ts: seq<Thread>, t: nat)
    requires OthersWeigh(c, g, g', t) && |ts| <= t
    ensures Sum(c, g', ts) == Sum(c, g, ts)
  {
    hide Weight;
    if ts != [] { SumFrame(c, g, g', ts[..|ts| - 1], t); }
  }

  lemma {:induction false} SumUpdate(c: Column, g: Shared, g': Shared, ts: seq<Thread>, t: nat, th: Thread)
    requires OthersWeigh(c, g, g', t) && t < |ts|
    ensures Sum(c, g', ts[t := th]) + Weight(c, g, ts[t], t) == Sum(c, g, ts) + Weight(c, g', th, t)
  {
    hide Weight;
    var us := ts[t := th];
    if t == |ts| - 1 {
      assert us[..|us| - 1] == ts[..|ts| - 1];
      SumFrame(c, g, g', ts[..|ts| - 1], t);
    } else {
      assert us[..|us| - 1] == ts[..|ts| - 1][t := th];
      SumUpdate(c, g, g', ts[..|ts| - 1], t, th);
    }
  }

  // The move of one thread changes a sum as it changes the weight of the thread.
  lemma SumMove(c: Column, s: State, s': State, t: nat)
    requires t < |s.ts| == |s'.ts| && s'.ts == s.ts[t := s'.ts[t]] && OthersWeigh(c, s.g, s'.g, t)
    ensures Sum(c, s'.g, s'.ts) + Weight(c, s.g, s.ts[t], t) == Sum(c, s.g, s.ts) + Weight(c, s'.g, s'.ts[t], t)
  {
    hide Weight, OthersWeigh;
    SumUpdate(c, s.g, s'.g, s.ts, t, s'.ts[t]);
  }

  // Places left on the global stack.
  function Room(cf: Config, g: Shared): nat {
    if |g.stack| < cf.size then cf.size - |g.stack| else 0
  }

  ghost function Unmarked(cf: Config, marked: set<Obj>): nat {
    |cf.L.block.Keys - marked|
  }

  function NotPassed(g: Shared): nat {
    if g.first <= |g.stack| then |g.stack| - g.first else 0
  }

  lemma FewerUnmarked(cf: Config, marked: set<Obj>, marked': set<Obj>)
    requires NewMark(cf, marked, marked')
    ensures Unmarked(cf, marked') < Unmarked(cf, marked)
  {
    var o :| o in cf.L.block && o !in marked && o in marked';
    ProperSubset(cf.L.block.Keys - marked', cf.L.block.Keys - marked);
  }

  lemma ProperSubset(s: set<Obj>, t: set<Obj>)
    requires s < t
    ensures |s| < |t|
  {
    var x :| x in t && x !in s;
    SubsetSize(s, t - {x});
  }

  lemma {:induction false} SubsetSize(s: set<Obj>, t: set<Obj>)
    requires s <= t
    ensures |s| <= |t|
  {
    if s != {} {
      var x :| x in s;
      SubsetSize(s - {x}, t - {x});
    }
  }

  // One state is nearer to the end than another.
  ghost predicate Nearer(cf: Config, s': State, s: State) {
    || Room(cf, s'.g) < Room(cf, s.g)
    || (Room(cf, s'.g) == Room(cf, s.g)
        && (|| Sum(Efforts, s'.g, s'.ts) < Sum(Efforts, s.g, s.ts)
            || (Sum(Efforts, s'.g, s'.ts) == Sum(Efforts, s.g, s.ts)
                && (|| Unmarked(cf, s'.g.marked) < Unmarked(cf, s.g.marked)
                    || (Unmarked(cf, s'.g.marked) == Unmarked(cf, s.g.marked) && NearerNow(s', s))))))
  }

  ghost predicate NearerNow(s': State, s: State) {
    || Sum(Stales, s'.g, s'.ts) < Sum(Stales, s.g, s.ts)
    || (Sum(Stales, s'.g, s'.ts) == Sum(Stales, s.g, s.ts)
        && (|| Sum(Gaps, s'.g, s'.ts) < Sum(Gaps, s.g, s.ts)
            || (Sum(Gaps, s'.g, s'.ts) == Sum(Gaps, s.g, s.ts)
                && (|| Sum(Loads, s'.g, s'.ts) < Sum(Loads, s.g, s.ts)
                    || (Sum(Loads, s'.g, s'.ts) == Sum(Loads, s.g, s.ts) && NearerStep(s', s))))))
  }

  ghost predicate NearerStep(s': State, s: State) {
    || Sum(Notices, s'.g, s'.ts) < Sum(Notices, s.g, s.ts)
    || (Sum(Notices, s'.g, s'.ts) == Sum(Notices, s.g, s.ts)
        && (|| NotPassed(s'.g) < NotPassed(s.g)
            || (NotPassed(s'.g) == NotPassed(s.g)
                && (|| Flag(s'.g) < Flag(s.g)
                    || (Flag(s'.g) == Flag(s.g) && Sum(Ranks, s'.g, s'.ts) < Sum(Ranks, s.g, s.ts))))))
  }

  // Another thread's rank depends on what it sleeps through only when all entries are passed.
  lemma RanksStay(g: Shared, g': Shared, t: nat)
    requires |g'.stack| == |g.stack| && g'.helpers == g.helpers && g'.first == g.first && Flag(g') == Flag(g)
    requires g.first == |g.stack| ==> g'.asleep - {t} == g.asleep - {t}
    ensures OthersWeigh(Ranks, g, g', t)
  {
    forall th, u: nat | u != t ensures Weight(Ranks, g', th, u) == Weight(Ranks, g, th, u) {
      if g.first == |g.stack| { assert u in g.asleep <==> u in g.asleep - {t}; }
    }
  }

  lemma StepNearer(s: State, s': State, t: nat)
    requires t < |s.ts| == |s'.ts| && s'.ts == s.ts[t := s'.ts[t]]
    requires |s'.g.stack| == |s.g.stack| && s'.g.helpers == s.g.helpers && s.g.first <= |s.g.stack|
    requires GoesOn(s.g, s.ts[t], t, s'.g, s'.ts[t])
    ensures NearerStep(s', s)
  {
    hide Rank;
    SumMove(Notices, s, s', t);
    if s'.g.first == s.g.first && Flag(s'.g) == Flag(s.g) && Notice(s'.ts[t].pc) == Notice(s.ts[t].pc) {
      RanksStay(s.g, s'.g, t);
      SumMove(Ranks, s, s', t);
    }
  }

  lemma AdvanceNearer(s: State, s': State, t: nat)
    requires t < |s.ts| == |s'.ts| && s'.ts == s.ts[t := s'.ts[t]]
    requires |s'.g.stack| == |s.g.stack| && s'.g.helpers == s.g.helpers && s.g.first <= |s.g.stack|
    requires s'.g.marked == s.g.marked && Advances(s.g, s.ts[t], t, s'.g, s'.ts[t])
    ensures NearerNow(s', s)
  {
    hide GoesOn, NearerStep, Stale, Gap, Load, Rank;
    SumMove(Stales, s, s', t);
    SumMove(Gaps, s, s', t);
    SumMove(Loads, s, s', t);
    if GoesOn(s.g, s.ts[t], t, s'.g, s'.ts[t]) { StepNearer(s, s', t); }
  }

  lemma MoveNearer(cf: Config, s: State, s': State, t: nat)
    requires t < |s.ts| == |s'.ts| && s'.ts == s.ts[t := s'.ts[t]] && s.g.first <= |s.g.stack|
    requires Descends(cf, s.g, s.ts[t], t, s'.g, s'.ts[t])
    ensures Nearer(cf, s', s)
  {
    hide Effort, Advances, NearerNow, Unmarked, NewMark, Rank, Gap, Load, Stale;
    if |s'.g.stack| == |s.g.stack| {
      SumMove(Efforts, s, s', t);
      if NewMark(cf, s.g.marked, s'.g.marked) {
        FewerUnmarked(cf, s.g.marked, s'.g.marked);
      } else if s'.g.marked == s.g.marked && s'.g.helpers == s.g.helpers
                && Advances(s.g, s.ts[t], t, s'.g, s'.ts[t]) {
        AdvanceNearer(s, s', t);
      }
    }
  }

  /****** whose turn it is ******/

  // A thread that neither sleeps nor has ended.
  predicate Busy(pc: PC) {
    !pc.Idle? && !pc.Gone? && !pc.Finished? && !pc.Waiting? && !pc.Await?
  }

  // Some thread of a kind, or none.
  lemma FindThread(ts: seq<Thread>, kind: PC -> bool) returns (t: nat)
    ensures t <= |ts| && (t < |ts| ==> kind(ts[t].pc))
    ensures t == |ts| ==> forall u :: 0 <= u < |ts| ==> !kind(ts[u].pc)
  {
    t := |ts|;
    if u: nat :| u < |ts| && kind(ts[u].pc) { t := u; }
  }

  lemma BusyMoves(cf: Config, s: State, t: nat)
    requires ParInv(cf, s) && t < |s.ts| && (s.g.lock == t || (s.g.lock == -1 && Busy(s.ts[t].pc)))
    ensures MayMove(s.g, s.ts[t], t)
  {
    assert LocalInv(cf, s.g, s.ts[t], t);
  }

  // When no thread is busy, those that wait have been notified.
  lemma WaitingMoves(cf: Config, s: State, t: nat)
    requires ParInv(cf, s) && t < |s.ts| && s.g.lock == -1 && s.ts[t].pc.Waiting?
    requires forall u :: 0 <= u < |s.ts| ==> !Busy(s.ts[u].pc)
    ensures MayMove(s.g, s.ts[t], t)
  {
    assert LocalInv(cf, s.g, s.ts[t], t);
    CountZero(s.ts, Active);
  }

  // When there are no helpers left, the initiator has been notified.
  lemma InitiatorMoves(cf: Config, s: State)
    requires ParInv(cf, s) && s.g.lock == -1 && !s.ts[0].pc.Finished?
    requires forall u :: 0 <= u < |s.ts| ==> !Busy(s.ts[u].pc) && !s.ts[u].pc.Waiting?
    ensures MayMove(s.g, s.ts[0], 0)
  {
    assert LocalInv(cf, s.g, s.ts[0], 0);
    CountZero(s.ts, Running);
  }

  // As long as GC_do_parallel_mark has not returned, some thread can move: the holder of the lock, if there is
  // one, else one that is busy, else one that waits, else the initiator.
  lemma SomeMoves(cf: Config, s: State) returns (t: nat)
    requires ParInv(cf, s) && !s.ts[0].pc.Finished?
    ensures t < |s.ts| && MayMove(s.g, s.ts[t], t)
  {
    if s.g.lock >= 0 {
      t := s.g.lock;
      BusyMoves(cf, s, t);
    } else {
      assert LocalInv(cf, s.g, s.ts[0], 0);
      t := FindThread(s.ts, Busy);
      if t < |s.ts| {
        BusyMoves(cf, s, t);
      } else {
        t := FindThread(s.ts, (pc: PC) => pc.Waiting?);
        if t < |s.ts| {
          WaitingMoves(cf, s, t);
        } else {
          t := 0;
          InitiatorMoves(cf, s);
        }
      }
    }
  }

  // A turn that changes anything, or of a thread that can move, makes the measure smaller.
  lemma TurnNearer(cf: Config, s: State, t: nat, c: Choice)
    requires ParInv(cf, s) && t < |s.ts| && !c.Rouse?
    ensures var s' := Step(cf, s, t, c);
            ParInv(cf, s') && (s' != s || MayMove(s.g, s.ts[t], t) ==> Nearer(cf, s', s))
  {
    var s' := Step(cf, s, t, c);
    StepKeeps(cf, s, t, c);
    assert LocalInv(cf, s.g, s.ts[t], t);
    MoveDescends(cf, s.g, s.ts[t], t, c);
    hide ThreadStep, Descends, NoneLost, MayMove;
    if s'.g == s.g && s'.ts[t] == s.ts[t] { assert s'.ts == s.ts; }
    if Descends(cf, s.g, s.ts[t], t, s'.g, s'.ts[t]) { MoveNearer(cf, s, s', t); }
  }

  /****** every fair schedule ends the mark phase ******/

  // The first n turns of an endless schedule, and the state after them.
  ghost function Turns(turn: nat -> Turn, n: nat): seq<Turn> {
    seq(n, i requires 0 <= i < n => turn(i))
  }

  ghost function After(cf: Config, s0: State, turn: nat -> Turn, n: nat): State {
    Run(cf, s0, Turns(turn, n))
  }

  // Thread t has a turn at or after i.
  ghost predicate TurnComes(turn: nat -> Turn, t: nat, i: nat) {
    exists j: nat :: i <= j && turn(j).t == t
  }

  // Each of n threads has turns again and again.
  ghost predicate Fair(turn: nat -> Turn, n: nat) {
    forall t: nat, i: nat :: t < n ==> TurnComes(turn, t, i)
  }

  // From a certain time on, no thread wakes up without having been notified.
  ghost predicate Calm(turn: nat -> Turn, from: nat) {
    forall i: nat :: from <= i ==> !turn(i).c.Rouse?
  }

  // A schedule of n threads as it may be expected.
  ghost predicate GoodSchedule(turn: nat -> Turn, n: nat) {
    Fair(turn, n) && exists from: nat :: Calm(turn, from)
  }

  // GC_do_parallel_mark has returned.
  ghost predicate Returned(s: State) {
    |s.ts| > 0 && s.ts[0].pc.Finished?
  }

  // It returns at the nth turn and not before.
  ghost predicate Ends(cf: Config, s0: State, turn: nat -> Turn, n: nat) {
    Returned(After(cf, s0, turn, n)) && forall k: nat :: k < n ==> !Returned(After(cf, s0, turn, k))
  }

  lemma OneMore(cf: Config, s0: State, turn: nat -> Turn, n: nat)
    ensures var s := After(cf, s0, turn, n); var u := turn(n);
            After(cf, s0, turn, n + 1) == if u.t < |s.ts| then Step(cf, s, u.t, u.c) else s
  {
    assert Turns(turn, n + 1)[..n] == Turns(turn, n);
  }

  lemma AfterInv(cf: Config, s0: State, turn: nat -> Turn, n: nat)
    requires Init(cf, s0)
    ensures ParInv(cf, After(cf, s0, turn, n)) && |After(cf, s0, turn, n).ts| == |s0.ts| > 0
  {
    RunKeeps(cf, s0, Turns(turn, n));
  }

  // One turn changes nothing or makes the measure smaller.
  lemma TurnChanges(cf: Config, s0: State, turn: nat -> Turn, n: nat)
    requires Init(cf, s0) && !turn(n).c.Rouse?
    ensures var s := After(cf, s0, turn, n); var s' := After(cf, s0, turn, n + 1); var t := turn(n).t;
            s' != s || (t < |s.ts| && MayMove(s.g, s.ts[t], t)) ==> Nearer(cf, s', s)
  {
    hide *;
    AfterInv(cf, s0, turn, n);
    OneMore(cf, s0, turn, n);
    var s := After(cf, s0, turn, n);
    if turn(n).t < |s.ts| { TurnNearer(cf, s, turn(n).t, turn(n).c); }
  }

  // From turn n to turn k nothing changes, or some turn makes the measure smaller.
  lemma {:induction false} FirstChange(cf: Config, s0: State, turn: nat -> Turn, n: nat, k: nat) returns (j: nat)
    requires Init(cf, s0) && n <= k && Calm(turn, n)
    ensures n <= j <= k
    ensures var s := After(cf, s0, turn, n); var s' := After(cf, s0, turn, j);
            Nearer(cf, s', s) || (j == k && s' == s)
    decreases k - n
  {
    hide After, Init, Nearer;
    j := n;
    if n < k {
      TurnChanges(cf, s0, turn, n);
      if After(cf, s0, turn, n + 1) == After(cf, s0, turn, n) {
        j := FirstChange(cf, s0, turn, n + 1, k);
      } else {
        j := n + 1;
      }
    }
  }

  // In a fair schedule, a thread that can move gets its turn.
  lemma MoverGetsOn(cf: Config, s0: State, turn: nat -> Turn, n: nat, t: nat, k: nat) returns (j: nat)
    requires Init(cf, s0) && Calm(turn, n) && n <= k && turn(k).t == t
    requires var s := After(cf, s0, turn, n); t < |s.ts| && MayMove(s.g, s.ts[t], t)
    ensures n <= j && Nearer(cf, After(cf, s0, turn, j), After(cf, s0, turn, n))
  {
    hide After, Init, Nearer, MayMove;
    j := FirstChange(cf, s0, turn, n, k);
    if !Nearer(cf, After(cf, s0, turn, j), After(cf, s0, turn, n)) {
      TurnChanges(cf, s0, turn, k);
      j := k + 1;
    }
  }

  lemma TurnOf(turn: nat -> Turn, n: nat, t: nat, i: nat) returns (k: nat)
    requires Fair(turn, n) && t < n
    ensures i <= k && turn(k).t == t
  {
    assert TurnComes(turn, t, i);
    k :| i <= k && turn(k).t == t;
  }

  // As long as GC_do_parallel_mark has not returned, a fair schedule makes the measure smaller.
  lemma LaterNearer(cf: Config, s0: State, turn: nat -> Turn, n: nat) returns (j: nat)
    requires Init(cf, s0) && Fair(turn, |s0.ts|) && Calm(turn, n)
    requires var s := After(cf, s0, turn, n); |s.ts| > 0 && !s.ts[0].pc.Finished?
    ensures n <= j && Nearer(cf, After(cf, s0, turn, j), After(cf, s0, turn, n))
  {
    hide *;
    AfterInv(cf, s0, turn, n);
    var t := SomeMoves(cf, After(cf, s0, turn, n));
    var k := TurnOf(turn, |s0.ts|, t, n);
    j := MoverGetsOn(cf, s0, turn, n, t, k);
  }

  // From a calm time on, the measure gets smaller until GC_do_parallel_mark returns.
  lemma {:induction false} CalmScheduleEnds(cf: Config, s0: State, turn: nat -> Turn, n: nat) returns (k: nat)
    requires Init(cf, s0) && Fair(turn, |s0.ts|) && Calm(turn, n)
    ensures n <= k && var s := After(cf, s0, turn, k); |s.ts| > 0 && s.ts[0].pc.Finished?
    decreases var s := After(cf, s0, turn, n); Room(cf, s.g),
              var s := After(cf, s0, turn, n); Sum(Efforts, s.g, s.ts),
              Unmarked(cf, After(cf, s0, turn, n).g.marked),
              var s := After(cf, s0, turn, n); Sum(Stales, s.g, s.ts),
              var s := After(cf, s0, turn, n); Sum(Gaps, s.g, s.ts),
              var s := After(cf, s0, turn, n); Sum(Loads, s.g, s.ts),
              var s := After(cf, s0, turn, n); Sum(Notices, s.g, s.ts),
              NotPassed(After(cf, s0, turn, n).g),
              Flag(After(cf, s0, turn, n).g),
              var s := After(cf, s0, turn, n); Sum(Ranks, s.g, s.ts)
  {
    hide After, Init, ParInv, Fair, Room, Sum, Unmarked, NotPassed, Flag;
    AfterInv(cf, s0, turn, n);
    k := n;
    if !After(cf, s0, turn, n).ts[0].pc.Finished? {
      var j := LaterNearer(cf, s0, turn, n);
      k := CalmScheduleEnds(cf, s0, turn, j);
    }
  }

  // GC_do_parallel_mark returns under every schedule that gives each thread turns again and again, provided
  // that from some time on no thread wakes up for no reason.
  lemma FairScheduleEnds(cf: Config, s0: State, turn: nat -> Turn) returns (n: nat)
    requires Init(cf, s0) && GoodSchedule(turn, |s0.ts|)
    ensures var s := After(cf, s0, turn, n); |s.ts| > 0 && s.ts[0].pc.Finished?
  {
    hide Init, After, Fair;
    var calm: nat :| Calm(turn, calm);
    n := CalmScheduleEnds(cf, s0, turn, calm);
  }

  // GC_do_parallel_mark with its helpers, which take turns until it returns.
  method DoParallelMark(cf: Config, s0: State, turn: nat -> Turn) returns (s: State, n: nat)
    requires Init(cf, s0) && GoodSchedule(turn, |s0.ts|)
    ensures s == After(cf, s0, turn, n) && Ends(cf, s0, turn, n)
  {
    hide After, Init, GoodSchedule, Step;
    ghost var end := FairScheduleEnds(cf, s0, turn);
    s, n := s0, 0;
    AtFirst(cf, s0, turn);
    AfterInv(cf, s0, turn, 0);
    while !s.ts[0].pc.Finished?
      invariant n <= end && s == After(cf, s0, turn, n) && |s.ts| > 0
      invariant forall k: nat :: k < n ==> !Returned(After(cf, s0, turn, k))
      decreases end - n
    {
      OneMore(cf, s0, turn, n);
      AfterInv(cf, s0, turn, n + 1);
      if turn(n).t < |s.ts| { s := Step(cf, s, turn(n).t, turn(n).c); }
      n := n + 1;
    }
  }

  // There is only one such turn.
  lemma EndsOnce(cf: Config, s0: State, turn: nat -> Turn, n: nat, k: nat)
    requires Ends(cf, s0, turn, n) && Ends(cf, s0, turn, k)
    ensures n == k
  {
    hide After, Returned;
  }

  lemma AtFirst(cf: Config, s0: State, turn: nat -> Turn)
    ensures After(cf, s0, turn, 0) == s0
  {
  }
}
