/** Parallel marking (the PARALLEL_MARK part of mark.c) as a state machine over its atomic steps.
 *
 *  Thread 0 runs GC_do_parallel_mark, the others GC_help_marker; all of them run GC_mark_local.  A step
 *  is one access to shared memory that is not protected by the mark lock, or the taking or giving up of
 *  that lock with what is done under it.  A schedule says which thread moves next; a thread that
 *  cannot move leaves the state as it is.  Entries of the global stack are never removed: stealing one
 *  clears its descriptor, in two steps, a load and a store.  A thread that waits sleeps until another one
 *  notifies it (or for no reason, as condition variables may).
 */
module ParallelMark {
  import opened Common
  import opened MarkDefs

  const LOCAL_MARK_STACK_SIZE: nat := HBLKSIZE
  const ENTRIES_TO_GET: nat := 5
  const SHARE_WORDS: nat := 2048 / WORD_BYTES

  datatype Slot = Slot(e: Entry, live: bool)

  datatype PC =
    | Idle                                        // not helping in this mark phase yet
    | Gone                                        // has helped; it waits for the next one (pthread_support.c:382-399)
    | Start                                       // GC_do_parallel_mark is being entered
    | Enter | EnterL                              // the head of GC_mark_local; L: the mark lock is held
    | Look                                        // about to load GC_first_nonempty
    | Cas(seen: nat)                              // about to advance it
    | ReadTop                                     // about to load GC_mark_stack_top
    | Recheck | RecheckL                          // the stack looked empty: look again under the lock
    | TestL | Waiting | FinalL                    // no work left for this thread
    | Steal(p: nat, high: nat, taken: nat, max: nat)
    | Zero(p: nat, high: nat, taken: nat, max: nat)
    | Local                                       // GC_do_local_mark, between two ranges
    | Scan                                        // examining the range in hand
    | Marking(o: Obj)                             // o was seen unmarked
    | Return(k: nat) | ReturnL(k: nat)            // giving back the k lowest local entries
    | NotifyWork(all: bool)                       // about to tell that there is work again; all: none was kept
    | NotifyEnd                                   // the last helper, about to tell that it has left
    | Await | AwaitL | Finished                   // the end of GC_do_parallel_mark

  datatype Thread = Thread(pc: PC, local: seq<Entry>, hand: Hand, myFirst: nat)

  // What does not change during the phase.
  datatype Config = Config(
    L: Layout, mem: map<Area, seq<Word>>,
    ghost exempt: set<Area>,                      // areas written since the dirty bits were read
    size: nat,                                    // GC_mark_stack_size
    markers: nat)                                 // GC_markers

  datatype Shared = Shared(
    stack: seq<Slot>,                             // up to and including GC_mark_stack_top
    first: nat,                                   // GC_first_nonempty
    active: nat, helpers: nat,                    // GC_active_count, GC_helper_count
    wanted: bool,                                 // GC_help_wanted
    invalid: bool,                                // GC_mark_state is MS_INVALID
    marked: set<Obj>,
    lock: int,                                    // holder of the mark lock, or -1
    asleep: set<nat>,                             // threads in GC_wait_marker that were not notified
    ended: bool)                                  // some thread has seen the end of the work

  datatype State = State(g: Shared, ts: seq<Thread>)

  // A thread in GC_do_local_mark may take a break from marking after any range, and may then share; this
  // depends on a credit and on counters read without the lock, so a schedule may choose either.  A thread
  // that sleeps goes on sleeping, or is roused although nobody has notified it.
  datatype Choice = GoOn | Break | Rouse

  datatype Turn = Turn(t: nat, c: Choice)

  predicate HoldsLock(pc: PC) {
    pc.EnterL? || pc.RecheckL? || pc.TestL? || pc.FinalL? || pc.ReturnL? || pc.AwaitL?
  }

  // Threads counted by GC_helper_count and by GC_active_count.
  predicate Running(pc: PC) {
    !pc.Idle? && !pc.Gone? && !pc.Start? && !pc.NotifyEnd? && !pc.Await? && !pc.AwaitL? && !pc.Finished?
  }

  predicate Active(pc: PC) {
    Running(pc) && !pc.Enter? && !pc.EnterL? && !pc.TestL? && !pc.Waiting? && !pc.FinalL?
  }

  // Threads that have taken a place on the global stack.
  predicate Placed(pc: PC) {
    Running(pc) && !pc.Enter? && !pc.EnterL?
  }

  // Threads that may have marking work of their own.
  predicate Working(pc: PC) {
    pc.Steal? || pc.Zero? || pc.Local? || pc.Scan? || pc.Marking? || pc.Return? || pc.ReturnL? || pc.NotifyWork?
  }

  /****** the steps of one thread, on the shared state and its own ******/

  type Move = (Shared, Thread)

  // A step that begins by taking the lock.
  function Acquire(g: Shared, th: Thread, t: nat, pc: PC): Move {
    if g.lock == -1 then (g.(lock := t), th.(pc := pc)) else (g, th)
  }

  function ThreadStep(cf: Config, g: Shared, th: Thread, t: nat, c: Choice): Move {
    match th.pc
    case Idle | Gone | Start | Enter | EnterL => JoinStep(cf, g, th, t)
    case Look | Cas(_) | ReadTop | Recheck | RecheckL => LookStep(g, th, t)
    case TestL | Waiting | FinalL => EndStep(g, th, t, c)
    case NotifyWork(_) | NotifyEnd => NotifyStep(g, th, t)
    case Await | AwaitL | Finished => AwaitStep(g, th, t, c)
    case Steal(_, _, _, _) => StealStep(g, th)
    case Zero(_, _, _, _) => ZeroStep(g, th)
    case Local => (g, LocalStep(th, c))
    case Scan => (g, ScanStep(cf, g, th))
    case Marking(o) => MarkStep(cf, g, th)
    case Return(k) => Acquire(g, th, t, ReturnL(k))
    case ReturnL(k) => ReturnStep(cf, g, th)
  }

  // GC_help_marker and the first half of GC_do_parallel_mark, each under the lock, and the head of GC_mark_local.
  function JoinStep(cf: Config, g: Shared, th: Thread, t: nat): Move {
    match th.pc
    case Idle =>
      if g.lock != -1 || t == 0 || !g.wanted then (g, th)
      else if g.helpers < cf.markers then (g.(helpers := g.helpers + 1), th.(pc := Enter))
      else (g, th.(pc := Gone))
    case Start =>
      if g.lock == -1
      then (g.(first := 0, active := 0, helpers := 1, wanted := true), th.(pc := Enter)) else (g, th)
    case Enter => Acquire(g, th, t, EnterL)
    case EnterL => (g.(active := g.active + 1, lock := -1), th.(pc := Look, myFirst := g.first))
    case _ => (g, th)
  }

  // The top of GC_mark_local's loop, up to the point where the thread either starts stealing or gives up.
  function LookStep(g: Shared, th: Thread, t: nat): Move {
    match th.pc
    case Look =>
      if th.myFirst < g.first then (g, th.(pc := ReadTop, myFirst := g.first))
      else if g.first < th.myFirst then (g, th.(pc := Cas(g.first)))
      else (g, th.(pc := ReadTop))
    case Cas(seen) => (g.(first := if g.first == seen then th.myFirst else g.first), th.(pc := ReadTop))
    case ReadTop =>
      if |g.stack| == th.myFirst then (g, th.(pc := Recheck)) else (g, th.(pc := StartSteal(th.myFirst, |g.stack|)))
    case Recheck => Acquire(g, th, t, RecheckL)
    case RecheckL =>
      if |g.stack| == th.myFirst then
        (g.(active := Pred(g.active), asleep := if g.active <= 1 then {} else g.asleep), th.(pc := TestL))
      else (g.(lock := -1), th.(pc := StartSteal(th.myFirst, |g.stack|)))
    case _ => (g, th)
  }

  function Pred(n: nat): nat { if n == 0 then 0 else n - 1 }

  function StartSteal(low: nat, high: nat): PC {
    Steal(low, high, 0, if high - low < 2 * ENTRIES_TO_GET then 1 else ENTRIES_TO_GET)
  }

  // GC_wait_marker gives up the lock and takes it again afterwards.
  function Sleep(g: Shared, th: Thread, t: nat, pc: PC): Move {
    (g.(lock := -1, asleep := g.asleep + {t}), th.(pc := pc))
  }

  function Wake(g: Shared, th: Thread, t: nat, c: Choice, pc: PC): Move {
    if g.lock == -1 && (t !in g.asleep || c == Rouse) then (g.(lock := t, asleep := g.asleep - {t}),
        th.(pc := pc)) else (g, th)
  }

  // Waiting for more work or for the end.
  function EndStep(g: Shared, th: Thread, t: nat, c: Choice): Move {
    match th.pc
    case TestL =>
      if g.active > 0 && g.first >= |g.stack| then Sleep(g, th, t, Waiting) else (g, th.(pc := FinalL))
    case Waiting => Wake(g, th, t, c, TestL)
    case FinalL =>
      if g.active == 0 && g.first >= |g.stack|
      then
        (g.(helpers := Pred(g.helpers), ended := true, lock := -1),
         th.(pc := if g.helpers <= 1 then NotifyEnd else if t == 0 then Await else Gone))
      else (g.(active := g.active + 1, lock := -1), th.(pc := Look))
    case _ => (g, th)
  }

  // GC_notify_all_marker, without the lock.
  function NotifyStep(g: Shared, th: Thread, t: nat): Move {
    match th.pc
    case NotifyWork(all) => (g.(asleep := {}), th.(pc := if all then Look else Local))
    case NotifyEnd => (g.(asleep := {}), th.(pc := if t == 0 then Await else Gone))
    case _ => (g, th)
  }

  // The second half of GC_do_parallel_mark.
  function AwaitStep(g: Shared, th: Thread, t: nat, c: Choice): Move {
    match th.pc
    case Await => var (g', th') := Wake(g, th, t, c,
        AwaitL); (g'.(wanted := if th'.pc.AwaitL? then false else g.wanted), th')
    case AwaitL => if g.helpers > 0 then Sleep(g, th, t, Await) else (g.(lock := -1), th.(pc := Finished))
    case _ => (g, th)
  }

  // GC_steal_mark_stack: the load of a descriptor ...
  function StealStep(g: Shared, th: Thread): Move {
    match th.pc
    case Steal(p, high, taken, max) =>
      if p < high && taken <= max then
        if p < |g.stack| && g.stack[p].live then (g, th.(pc := Zero(p, high, taken, max)))
        else (g, th.(pc := Steal(p + 1, high, taken, max)))
      else (g, th.(pc := Local, myFirst := p))
    case _ => (g, th)
  }

  // ... and the store of zero, after which the entry is this thread's (and maybe another's too).
  function ZeroStep(g: Shared, th: Thread): Move {
    match th.pc
    case Zero(p, high, taken, max) =>
      if p < |g.stack| then
        var e := g.stack[p].e;
        (g.(stack := g.stack[p := Slot(e, false)]),
         th.(pc := Steal(p + 1, high, taken + 1 + EntryBytes(e) / 256, max), local := th.local + [e]))
      else (g, th)
    case _ => (g, th)
  }

  function EntryBytes(e: Entry): nat { if e.lo < e.hi then (e.hi - e.lo) * WORD_BYTES else 0 }

  // GC_do_local_mark between two ranges: leave when out of work, give back a stack that is half full,
  // share, or go on with the top entry (GC_mark_from), which is halved if it is large.
  function LocalStep(th: Thread, c: Choice): Thread {
    var n := |th.local|;
    if n == 0 then th.(pc := Look)
    else if c == Break && n - 1 >= LOCAL_MARK_STACK_SIZE / 2 then th.(pc := Return(n))
    else if c == Break && n > 2 then th.(pc := Return((n - 1) / 2))
    else
      var e := th.local[n - 1];
      var below := th.local[..n - 1];
      if e.hi > e.lo + SHARE_WORDS && n < LOCAL_MARK_STACK_SIZE then
        var half := (e.hi - e.lo) / 2;
        th.(local := below + [Entry(e.area, e.lo, e.lo + half + 1)] + [Entry(e.area, e.lo + half, e.hi)])
      else if e.hi >= e.lo + SPLIT_RANGE_WORDS then
        var mid := e.lo + SPLIT_RANGE_WORDS - 1;
        th.(pc := Scan, local := below + [Entry(e.area, mid, e.hi)], hand := Hand(e.area, e.lo, mid, -1))
      else
        th.(pc := Scan, local := below, hand := Hand(e.area, e.lo, e.hi, -1))
  }

  // Examine the next word of the range in hand; the mark bit is only read here.
  function ScanStep(cf: Config, g: Shared, th: Thread): Thread {
    if th.hand.Hand? && th.hand.lo < th.hand.hi then
      if th.hand.area in cf.mem && 0 <= th.hand.lo < |cf.mem[th.hand.area]| then
        var w := cf.mem[th.hand.area][th.hand.lo];
        if w in cf.L.resolve && cf.L.resolve[w] !in g.marked then th.(pc := Marking(cf.L.resolve[w]))
        else th.(hand := th.hand.(lo := th.hand.lo + 1))
      else th
    else th.(pc := Local, hand := Nothing)
  }

  // Set the mark bit, whoever may have set it meanwhile, and push the object on the local stack.
  function MarkStep(cf: Config, g: Shared, th: Thread): Move {
    match th.pc
    case Marking(o) =>
      if th.hand.Hand? && o in cf.L.block && Heap(o) in cf.L.words && |th.local| <= LOCAL_MARK_STACK_SIZE then
        var g' := g.(marked := g.marked + {o});
        var th' := th.(pc := Scan, hand := th.hand.(lo := th.hand.lo + 1));
        if !cf.L.HasDescr(o) then (g', th')
        else
          var e := Entry(Heap(o), 0, cf.L.words[Heap(o)]);
          if |th.local| < LOCAL_MARK_STACK_SIZE then (g', th'.(local := th.local + [e]))
          else (g'.(invalid := true), th'.(local := th.local[..LOCAL_MARK_STACK_SIZE - GC_MARK_STACK_DISCARDS] + [e]))
      else (g, th)
    case _ => (g, th)
  }

  // GC_return_mark_stack under the lock; without room the entries are dropped.
  function ReturnStep(cf: Config, g: Shared, th: Thread): Move {
    match th.pc
    case ReturnL(k) =>
      if k <= |th.local| then
        var th' := th.(pc := NotifyWork(k == |th.local|), local := th.local[k..]);
        if |g.stack| + k > cf.size then (g.(invalid := true, lock := -1), th')
        else (g.(stack := g.stack + Slots(th.local[..k]), lock := -1), th')
      else (g, th)
    case _ => (g, th)
  }

  function Slots(es: seq<Entry>): (r: seq<Slot>)
    ensures |r| == |es| && forall i :: 0 <= i < |es| ==> r[i] == Slot(es[i], true)
  {
    seq(|es|, i requires 0 <= i < |es| => Slot(es[i], true))
  }

  // One step of thread t.
  function Step(cf: Config, s: State, t: nat, c: Choice): State
    requires t < |s.ts|
  {
    var (g, th) := ThreadStep(cf, s.g, s.ts[t], t, c);
    State(g, s.ts[t := th])
  }

  // The state after a schedule.
  function Run(cf: Config, s: State, sched: seq<Turn>): State {
    if sched == [] then s
    else
      var s' := Run(cf, s, sched[..|sched| - 1]);
      var u := sched[|sched| - 1];
      if u.t < |s'.ts| then Step(cf, s', u.t, u.c) else s'
  }

  /****** the invariant ******/

  ghost predicate WorkOf(th: Thread, a: Area, k: int) {
    OnStack(th.local, a, k) || InHand(th.hand, a, k)
  }

  ghost predicate OnGlobal(stack: seq<Slot>, a: Area, k: int) {
    exists j :: 0 <= j < |stack| && stack[j].live && Covers(stack[j].e, a, k)
  }

  // Word k of area a is inside a range that is still on the global stack, on some thread's local
  // stack, or in some thread's hand.
  ghost predicate Pending(s: State, a: Area, k: int) {
    OnGlobal(s.g.stack, a, k) || exists t :: 0 <= t < |s.ts| && WorkOf(s.ts[t], a, k)
  }

  ghost predicate Owed(cf: Config, marked: set<Obj>, a: Area) {
    a in cf.mem && a !in cf.exempt && (a.Heap? ==> a.o in marked && a.o in cf.L.block && cf.L.HasDescr(a.o))
  }

  ghost predicate Followed(cf: Config, marked: set<Obj>, a: Area, k: int)
    requires a in cf.mem && 0 <= k < |cf.mem[a]|
  {
    cf.mem[a][k] !in cf.L.resolve || cf.L.resolve[cf.mem[a][k]] in marked
  }

  // No work is lost, unless the mark state says so.
  ghost predicate NoneLost(cf: Config, s: State) {
    s.g.invalid || forall a, k :: Owed(cf, s.g.marked, a) && 0 <= k < |cf.mem[a]| ==>
                     Followed(cf, s.g.marked, a, k) || Pending(s, a, k)
  }

  ghost predicate GoodConfig(cf: Config) {
    cf.L.WellFormed() && cf.mem.Keys == cf.L.words.Keys && forall a <- cf.mem :: |cf.mem[a]| == cf.L.words[a]
  }

  ghost predicate EmptyBelow(stack: seq<Slot>, n: nat) {
    n <= |stack| && forall j :: 0 <= j < n ==> !stack[j].live
  }

  ghost predicate GoodStack(L: Layout, g: Shared) {
    EmptyBelow(g.stack, g.first) && forall j :: 0 <= j < |g.stack| ==> ValidEntry(L, g.stack[j].e)
  }

  // Where a thread stands on the global stack: every entry below that place is empty.
  function Place(th: Thread): nat {
    match th.pc
    case Steal(p, _, _, _) => p
    case Zero(p, _, _, _) => p
    case _ => th.myFirst
  }

  ghost predicate GoodPlace(stack: seq<Slot>, th: Thread) {
    && EmptyBelow(stack, Place(th))
    && match th.pc
       case Cas(seen) => seen < th.myFirst
       case Steal(p, high, taken, max) => p <= high <= |stack| && max <= ENTRIES_TO_GET && |th.local| <= taken &&
           |th.local| <= max + 1
       case Zero(p, high, taken, max) => p < high <= |stack| && max <= ENTRIES_TO_GET && |th.local| <= taken <= max
       case _ => true
  }

  ghost predicate GoodWork(cf: Config, th: Thread) {
    && |th.local| <= LOCAL_MARK_STACK_SIZE
    && (forall i :: 0 <= i < |th.local| ==> ValidEntry(cf.L, th.local[i]))
    && (th.hand.Hand? ==>
          th.hand.area in cf.L.words && 0 <= th.hand.lo <= th.hand.hi <= cf.L.words[th.hand.area] && th.hand.d == -1)
    && (th.hand.Hand? <==> th.pc.Scan? || th.pc.Marking?)
    && (th.local != [] ==> Working(th.pc))
    && match th.pc
       case Marking(o) => o in cf.L.block && th.hand.lo < th.hand.hi && PointerAt(cf, th.hand.area, th.hand.lo, o)
       case Return(k) => 0 < k <= |th.local|
       case ReturnL(k) => 0 < k <= |th.local|
       case NotifyWork(all) => all ==> th.local == []
       case _ => true
  }

  predicate PointerAt(cf: Config, a: Area, k: int, o: Obj) {
    a in cf.mem && 0 <= k < |cf.mem[a]| && cf.mem[a][k] in cf.L.resolve && cf.L.resolve[cf.mem[a][k]] == o
  }

  ghost predicate GoodThread(cf: Config, stack: seq<Slot>, th: Thread) {
    GoodWork(cf, th) && (Placed(th.pc) ==> GoodPlace(stack, th))
  }

  // No work and none about to be taken.
  ghost predicate Resting(th: Thread) {
    th.local == [] && th.hand == Nothing && !th.pc.Zero?
  }

  // What holds of thread t and the shared state, whatever the other threads are doing.
  ghost predicate LocalInv(cf: Config, g: Shared, th: Thread, t: nat) {
    && GoodStack(cf.L, g) && GoodThread(cf, g.stack, th)
    && g.lock >= -1 && (HoldsLock(th.pc) <==> g.lock == t)
    && (Active(th.pc) ==> g.active > 0) && (Running(th.pc) ==> g.helpers > 0)
    && (g.ended ==> g.first == |g.stack| && Resting(th))
    && (if t == 0 then Initiator(g, th.pc) else Running(th.pc) || th.pc.Idle? || th.pc.Gone? || th.pc.NotifyEnd?)
    && (th.pc.NotifyEnd? ==> g.ended)
    && (t in g.asleep ==> th.pc.Await? || (th.pc.Waiting? && g.active > 0))
  }

  ghost predicate Initiator(g: Shared, pc: PC) {
    && !pc.Idle? && !pc.Gone?
    && (pc.Await? || pc.AwaitL? || pc.Finished? ==> g.ended)
    && (pc.Start? ==> !g.wanted && !g.ended && g.active == 0 && g.helpers == 0)
    && (pc.AwaitL? || pc.Finished? ==> !g.wanted)
    && (pc.Finished? ==> g.helpers == 0)
  }

  function Count(ts: seq<Thread>, f: PC -> bool): nat {
    if ts == [] then 0 else Count(ts[..|ts| - 1], f) + if f(ts[|ts| - 1].pc) then 1 else 0
  }

  ghost predicate ParInv(cf: Config, s: State) {
    && GoodConfig(cf) && |s.ts| > 0
    && (forall t :: 0 <= t < |s.ts| ==> LocalInv(cf, s.g, s.ts[t], t))
    && s.g.lock < |s.ts|
    && s.g.active == Count(s.ts, Active) && s.g.helpers == Count(s.ts, Running)
    && InitiatorWakes(s)
    && NoneLost(cf, s)
  }

  // While the initiator sleeps there are helpers, or the last one is about to wake it.
  ghost predicate InitiatorWakes(s: State)
    requires |s.ts| > 0
  {
    s.ts[0].pc.Await? && 0 in s.g.asleep ==> s.g.helpers > 0 || exists u :: 0 <= u < |s.ts| && s.ts[u].pc.NotifyEnd?
  }

  // Before GC_do_parallel_mark: the whole of the marker's invariant rests on the global stack.
  ghost predicate Init(cf: Config, s: State) {
    && GoodConfig(cf) && |s.ts| > 0 && s.ts[0] == Thread(Start, [], Nothing, 0)
    && (forall t :: 0 < t < |s.ts| ==> s.ts[t] == Thread(Idle, [], Nothing, 0))
    && (forall j :: 0 <= j < |s.g.stack| ==> ValidEntry(cf.L, s.g.stack[j].e))
    && s.g.first == 0 && s.g.active == 0 && s.g.helpers == 0 && !s.g.wanted && s.g.lock == -1 && !s.g.ended
    && s.g.asleep == {}
    && NoneLost(cf, s)
  }

  /****** counting threads ******/

  lemma {:induction false} CountUpdate(ts: seq<Thread>, t: nat, th: Thread, f: PC -> bool)
    requires t < |ts|
    ensures Count(ts[t := th], f) + (if f(ts[t].pc) then 1 else 0) == Count(ts, f) + (if f(th.pc) then 1 else 0)
  {
    var us := ts[t := th];
    if t == |ts| - 1 {
      assert us[..|us| - 1] == ts[..|ts| - 1];
    } else {
      assert us[..|us| - 1] == ts[..|ts| - 1][t := th];
      CountUpdate(ts[..|ts| - 1], t, th, f);
    }
  }

  lemma {:induction false} CountZero(ts: seq<Thread>, f: PC -> bool)
    ensures Count(ts, f) == 0 <==> forall t :: 0 <= t < |ts| ==> !f(ts[t].pc)
  {
    if ts != [] {
      CountZero(ts[..|ts| - 1], f);
    }
  }

  /****** every step keeps the invariant ******/

  function Bit(b: bool): nat { if b then 1 else 0 }

  // The global stack only grows, and its entries only go from live to empty.
  ghost predicate Later(stack: seq<Slot>, stack': seq<Slot>) {
    && |stack| <= |stack'|
    && forall j :: 0 <= j < |stack| ==> stack'[j].e == stack[j].e && (stack'[j].live ==> stack[j].live)
  }

  // What a move of thread t guarantees, again without looking at other threads.
  ghost predicate GoodMove(cf: Config, g: Shared, th: Thread, t: nat, g': Shared, th': Thread) {
    && LocalInv(cf, g', th', t) && Later(g.stack, g'.stack)
    && g'.active + Bit(Active(th.pc)) == g.active + Bit(Active(th'.pc))
    && g'.helpers + Bit(Running(th.pc)) == g.helpers + Bit(Running(th'.pc))
    && (g'.lock == g.lock || (g.lock == -1 && g'.lock == t) || (g.lock == t && g'.lock == -1))
    && g.marked <= g'.marked && (g.invalid ==> g'.invalid)
    && (g.ended ==> g'.ended) && (g'.ended ==> g.ended || g.active == 0)
    && (t != 0 ==> g'.wanted == g.wanted)
    && (th.pc.Gone? || (th.pc.Idle? && !g.wanted) ==> g' == g && th' == th)
    && g'.asleep <= g.asleep + {t} && (g'.active == 0 ==> g.active == 0 || g'.asleep == {})
    && (t in g'.asleep && th'.pc.Await? ==> t in g.asleep || g'.helpers > 0)
    && (g'.helpers == 0 ==> g.helpers == 0 || th'.pc.NotifyEnd?)
    && (th.pc.NotifyEnd? ==> g'.asleep == {} && (th'.pc.Gone? || th'.pc.Await?))
    && (t in g.asleep && t in g'.asleep ==> th'.pc == th.pc)
  }

  // A thread without work stays in order as long as it gets none.
  lemma IdleWork(cf: Config, th: Thread, th': Thread)
    requires GoodWork(cf, th) && !Working(th.pc) && !Working(th'.pc) && th'.local == th.local && th'.hand == th.hand
    ensures GoodWork(cf, th')
  {
  }

  lemma Bounds(stack: seq<Slot>)
    ensures EmptyBelow(stack, 0)
    ensures forall n: nat :: EmptyBelow(stack, n) ==> n <= |stack|
  {
  }

  lemma LaterSame(stack: seq<Slot>)
    ensures Later(stack, stack)
  {
  }

  lemma JoinGood(cf: Config, g: Shared, th: Thread, t: nat)
    requires LocalInv(cf, g, th, t)
    requires th.pc.Idle? || th.pc.Gone? || th.pc.Start? || th.pc.Enter? || th.pc.EnterL?
    ensures var (g', th') := JoinStep(cf, g, th, t); GoodMove(cf, g, th, t, g', th')
  {
    hide GoodWork, EmptyBelow, Later, ValidEntry;
    IdleWork(cf, th, JoinStep(cf, g, th, t).1);
    Bounds(g.stack);
    LaterSame(g.stack);
  }

  lemma LookGood(cf: Config, g: Shared, th: Thread, t: nat)
    requires LocalInv(cf, g, th, t) && (th.pc.Look? || th.pc.Cas?)
    ensures var (g', th') := LookStep(g, th, t); GoodMove(cf, g, th, t, g', th')
  {
    hide GoodWork, EmptyBelow, Later, ValidEntry;
    IdleWork(cf, th, LookStep(g, th, t).1);
    Bounds(g.stack);
    LaterSame(g.stack);
  }

  lemma ReadTopGood(cf: Config, g: Shared, th: Thread, t: nat)
    requires LocalInv(cf, g, th, t) && (th.pc.ReadTop? || th.pc.RecheckL?)
    ensures var (g', th') := LookStep(g, th, t); GoodMove(cf, g, th, t, g', th')
  {
    hide ValidEntry, PointerAt;
  }

  lemma RecheckGood(cf: Config, g: Shared, th: Thread, t: nat)
    requires LocalInv(cf, g, th, t) && (th.pc.Recheck?)
    ensures var (g', th') := LookStep(g, th, t); GoodMove(cf, g, th, t, g', th')
  {
    hide GoodWork, EmptyBelow, Later, ValidEntry;
    IdleWork(cf, th, LookStep(g, th, t).1);
    LaterSame(g.stack);
  }

  lemma TestGood(cf: Config, g: Shared, th: Thread, t: nat, c: Choice)
    requires LocalInv(cf, g, th, t) && (th.pc.TestL? || th.pc.Waiting?)
    ensures var (g', th') := EndStep(g, th, t, c); GoodMove(cf, g, th, t, g', th')
  {
    hide GoodWork, EmptyBelow, Later, ValidEntry;
    IdleWork(cf, th, EndStep(g, th, t, c).1);
    LaterSame(g.stack);
  }

  lemma FinalGood(cf: Config, g: Shared, th: Thread, t: nat, c: Choice)
    requires LocalInv(cf, g, th, t) && th.pc.FinalL?
    ensures var (g', th') := EndStep(g, th, t, c); GoodMove(cf, g, th, t, g', th')
  {
    hide GoodWork, EmptyBelow, Later, ValidEntry;
    IdleWork(cf, th, EndStep(g, th, t, c).1);
    Bounds(g.stack);
    LaterSame(g.stack);
  }

  lemma NotifyGood(cf: Config, g: Shared, th: Thread, t: nat)
    requires LocalInv(cf, g, th, t) && (th.pc.NotifyWork? || th.pc.NotifyEnd?)
    ensures var (g', th') := NotifyStep(g, th, t); GoodMove(cf, g, th, t, g', th')
  {
    hide EmptyBelow, Later, ValidEntry, PointerAt;
    LaterSame(g.stack);
  }

  lemma AwaitGood(cf: Config, g: Shared, th: Thread, t: nat, c: Choice)
    requires LocalInv(cf, g, th, t)
    requires th.pc.Await? || th.pc.AwaitL? || th.pc.Finished?
    ensures var (g', th') := AwaitStep(g, th, t, c); GoodMove(cf, g, th, t, g', th')
  {
    hide GoodWork, EmptyBelow, Later, ValidEntry;
    IdleWork(cf, th, AwaitStep(g, th, t, c).1);
    LaterSame(g.stack);
  }

  lemma StealGood(cf: Config, g: Shared, th: Thread, t: nat)
    requires LocalInv(cf, g, th, t)
    requires th.pc.Steal?
    ensures var (g', th') := StealStep(g, th); GoodMove(cf, g, th, t, g', th')
  {
    hide ValidEntry, PointerAt, JoinStep;
  }

  lemma ZeroGood(cf: Config, g: Shared, th: Thread, t: nat)
    requires LocalInv(cf, g, th, t)
    requires th.pc.Zero?
    ensures var (g', th') := ZeroStep(g, th); GoodMove(cf, g, th, t, g', th')
  {
  }

  lemma LocalWork(cf: Config, th: Thread, c: Choice)
    requires GoodWork(cf, th) && th.pc.Local?
    ensures GoodWork(cf, LocalStep(th, c))
  {
    assert th.local != [] ==> ValidEntry(cf.L, th.local[|th.local| - 1]);
  }

  lemma LocalGood(cf: Config, g: Shared, th: Thread, t: nat, c: Choice)
    requires LocalInv(cf, g, th, t) && th.pc.Local?
    ensures GoodMove(cf, g, th, t, g, LocalStep(th, c))
  {
    hide GoodWork, EmptyBelow, Later, ValidEntry;
    LocalWork(cf, th, c);
    LaterSame(g.stack);
  }

  lemma ScanGood(cf: Config, g: Shared, th: Thread, t: nat)
    requires GoodConfig(cf) && LocalInv(cf, g, th, t) && th.pc.Scan?
    ensures GoodMove(cf, g, th, t, g, ScanStep(cf, g, th))
  {
  }

  lemma MarkGood(cf: Config, g: Shared, th: Thread, t: nat)
    requires GoodConfig(cf) && LocalInv(cf, g, th, t) && th.pc.Marking?
    ensures var (g', th') := MarkStep(cf, g, th); GoodMove(cf, g, th, t, g', th')
  {
    hide EmptyBelow, Later;
    LaterSame(g.stack);
    assert cf.L.IsArea(Heap(th.pc.o));
  }

  lemma ReturnGood(cf: Config, g: Shared, th: Thread, t: nat)
    requires LocalInv(cf, g, th, t) && th.pc.Return?
    ensures var (g', th') := Acquire(g, th, t, ReturnL(th.pc.k)); GoodMove(cf, g, th, t, g', th')
  {
    hide EmptyBelow, Later, ValidEntry, PointerAt;
    LaterSame(g.stack);
  }

  lemma ReturnLGood(cf: Config, g: Shared, th: Thread, t: nat)
    requires LocalInv(cf, g, th, t) && th.pc.ReturnL?
    ensures var (g', th') := ReturnStep(cf, g, th); GoodMove(cf, g, th, t, g', th')
  {
    hide PointerAt;
  }

  lemma MoveGood(cf: Config, g: Shared, th: Thread, t: nat, c: Choice)
    requires GoodConfig(cf) && LocalInv(cf, g, th, t)
    ensures var (g', th') := ThreadStep(cf, g, th, t, c); GoodMove(cf, g, th, t, g', th')
  {
    hide GoodMove, LocalInv, GoodConfig;
    match th.pc {
      case Idle | Gone | Start | Enter | EnterL => JoinGood(cf, g, th, t);
      case Look | Cas(_) => LookGood(cf, g, th, t);
      case ReadTop | RecheckL => ReadTopGood(cf, g, th, t);
      case Recheck => RecheckGood(cf, g, th, t);
      case TestL | Waiting => TestGood(cf, g, th, t, c);
      case FinalL => FinalGood(cf, g, th, t, c);
      case NotifyWork(_) => NotifyGood(cf, g, th, t);
      case NotifyEnd => NotifyGood(cf, g, th, t);
      case Await | AwaitL | Finished => AwaitGood(cf, g, th, t, c);
      case Steal(_, _, _, _) => StealGood(cf, g, th, t);
      case Zero(_, _, _, _) => ZeroGood(cf, g, th, t);
      case Local => LocalGood(cf, g, th, t, c);
      case Scan => ScanGood(cf, g, th, t);
      case Marking(_) => MarkGood(cf, g, th, t);
      case Return(_) => ReturnGood(cf, g, th, t);
      case ReturnL(_) => ReturnLGood(cf, g, th, t);
    }
  }

  /****** no work gets lost ******/

  // What was pending on the global stack or with this thread still is, or has been followed; and the
  // words of newly marked objects are pending with this thread.
  ghost predicate KeepsWork(cf: Config, g: Shared, th: Thread, g': Shared, th': Thread) {
    g'.invalid ||
    forall a, k ::
      (a in cf.mem && 0 <= k < |cf.mem[a]| &&
          (OnGlobal(g.stack, a, k) || WorkOf(th, a, k) || NewlyOwed(cf, g.marked, g'.marked, a))) ==>
        OnGlobal(g'.stack, a, k) || WorkOf(th', a, k) || Followed(cf, g'.marked, a, k)
  }

  ghost predicate NewlyOwed(cf: Config, marked: set<Obj>, marked': set<Obj>, a: Area) {
    a.Heap? && a.o !in marked && a.o in marked' && a.o in cf.L.block && cf.L.HasDescr(a.o)
  }

  lemma SameWork(cf: Config, g: Shared, th: Thread, g': Shared, th': Thread)
    requires g'.stack == g.stack && g'.marked == g.marked && th'.local == th.local && th'.hand == th.hand
    ensures KeepsWork(cf, g, th, g', th')
  {
  }

  lemma ZeroKeeps(cf: Config, g: Shared, th: Thread)
    requires th.pc.Zero?
    ensures var (g', th') := ZeroStep(g, th); KeepsWork(cf, g, th, g', th')
  {
    var (g', th') := ZeroStep(g, th);
    if th.pc.p < |g.stack| {
      forall a, k | OnGlobal(g.stack, a, k) || WorkOf(th, a, k)
        ensures OnGlobal(g'.stack, a, k) || WorkOf(th', a, k)
      {
        OnStackPush(th.local, g.stack[th.pc.p].e, a, k);
        if j :| 0 <= j < |g.stack| && g.stack[j].live && Covers(g.stack[j].e, a, k) {
          assert j != th.pc.p ==> g'.stack[j] == g.stack[j];
        }
      }
    }
  }

  lemma LocalKeeps(cf: Config, g: Shared, th: Thread, c: Choice)
    requires th.pc.Local? && th.hand == Nothing
    ensures KeepsWork(cf, g, th, g, LocalStep(th, c))
  {
    var th' := LocalStep(th, c);
    var n := |th.local|;
    if n > 0 {
      var e := th.local[n - 1];
      var below := th.local[..n - 1];
      assert th.local == below + [e];
      var half := if e.lo < e.hi then (e.hi - e.lo) / 2 else 0;
      var e1 := Entry(e.area, e.lo, e.lo + half + 1);
      var e2 := Entry(e.area, e.lo + half, e.hi);
      var rest := Entry(e.area, e.lo + SPLIT_RANGE_WORDS - 1, e.hi);
      forall a, k | WorkOf(th, a, k) ensures WorkOf(th', a, k) {
        OnStackPush(below, e, a, k);
        OnStackPush(below, rest, a, k);
        OnStackPush(below, e1, a, k);
        OnStackPush(below + [e1], e2, a, k);
      }
    }
  }

  lemma ScanKeeps(cf: Config, g: Shared, th: Thread)
    requires th.hand.Hand? ==> th.hand.d == -1
    ensures KeepsWork(cf, g, th, g, ScanStep(cf, g, th))
  {
    var th' := ScanStep(cf, g, th);
    forall a, k | a in cf.mem && 0 <= k < |cf.mem[a]| && WorkOf(th, a, k)
      ensures WorkOf(th', a, k) || Followed(cf, g.marked, a, k)
    {
    }
  }

  lemma MarkKeeps(cf: Config, g: Shared, th: Thread)
    requires GoodConfig(cf) && th.pc.Marking? && th.hand.Hand? && th.hand.d == -1
    requires PointerAt(cf, th.hand.area, th.hand.lo, th.pc.o)
    ensures var (g', th') := MarkStep(cf, g, th); KeepsWork(cf, g, th, g', th')
  {
    var (g', th') := MarkStep(cf, g, th);
    var o := th.pc.o;
    if !g'.invalid && o in cf.L.block {
      assert cf.L.IsArea(Heap(o));
      var e := Entry(Heap(o), 0, cf.L.words[Heap(o)]);
      forall a, k | a in cf.mem && 0 <= k < |cf.mem[a]| && (WorkOf(th, a, k) || NewlyOwed(cf, g.marked, g'.marked, a))
        ensures WorkOf(th', a, k) || Followed(cf, g'.marked, a, k)
      {
        OnStackPush(th.local, e, a, k);
      }
    }
  }

  lemma ReturnKeeps(cf: Config, g: Shared, th: Thread)
    requires th.pc.ReturnL?
    ensures var (g', th') := ReturnStep(cf, g, th); KeepsWork(cf, g, th, g', th')
  {
    var (g', th') := ReturnStep(cf, g, th);
    var k := th.pc.k;
    if k <= |th.local| && !g'.invalid {
      forall a, i | OnGlobal(g.stack, a, i) || WorkOf(th, a, i)
        ensures OnGlobal(g'.stack, a, i) || WorkOf(th', a, i)
      {
        if j :| 0 <= j < |g.stack| && g.stack[j].live && Covers(g.stack[j].e, a, i) {
          assert g'.stack[j] == g.stack[j];
        } else if j :| 0 <= j < |th.local| && Covers(th.local[j], a, i) {
          if j < k {
            assert g'.stack[|g.stack| + j] == Slot(th.local[j], true);
          } else {
            assert th'.local[j - k] == th.local[j];
          }
        }
      }
    }
  }

  // All other moves only change counters and places.
  predicate Controls(g: Shared, th: Thread, g': Shared, th': Thread) {
    && g'.stack == g.stack && g'.marked == g.marked && g'.invalid == g.invalid
    && th'.local == th.local && th'.hand == th.hand && !th'.pc.Marking?
  }

  lemma JoinControls(cf: Config, g: Shared, th: Thread, t: nat)
    requires !th.pc.Marking?
    ensures var (g', th') := JoinStep(cf, g, th, t); Controls(g, th, g', th')
  {
  }

  lemma LookControls(g: Shared, th: Thread, t: nat)
    requires !th.pc.Marking?
    ensures var (g', th') := LookStep(g, th, t); Controls(g, th, g', th')
  {
  }

  lemma EndControls(g: Shared, th: Thread, t: nat, c: Choice)
    requires !th.pc.Marking?
    ensures var (g', th') := EndStep(g, th, t, c); Controls(g, th, g', th')
  {
  }

  lemma AwaitControls(g: Shared, th: Thread, t: nat, c: Choice)
    requires !th.pc.Marking?
    ensures var (g', th') := AwaitStep(g, th, t, c); Controls(g, th, g', th')
  {
  }

  lemma NotifyControls(g: Shared, th: Thread, t: nat)
    requires !th.pc.Marking?
    ensures var (g', th') := NotifyStep(g, th, t); Controls(g, th, g', th')
    ensures var (g', th') := StealStep(g, th); Controls(g, th, g', th')
    ensures th.pc.Return? ==> var (g', th') := Acquire(g, th, t, ReturnL(th.pc.k)); Controls(g, th, g', th')
  {
  }

  lemma ControlMoves(cf: Config, g: Shared, th: Thread, t: nat, c: Choice)
    requires !th.pc.Zero? && !th.pc.Local? && !th.pc.Scan? && !th.pc.Marking? && !th.pc.ReturnL?
    ensures var (g', th') := ThreadStep(cf, g, th, t, c); Controls(g, th, g', th')
  {
    hide JoinStep, LookStep, EndStep, NotifyStep, AwaitStep, StealStep, Acquire, Controls;
    JoinControls(cf, g, th, t);
    LookControls(g, th, t);
    EndControls(g, th, t, c);
    AwaitControls(g, th, t, c);
    NotifyControls(g, th, t);
  }

  lemma MoveKeeps(cf: Config, g: Shared, th: Thread, t: nat, c: Choice)
    requires GoodConfig(cf) && LocalInv(cf, g, th, t)
    ensures var (g', th') := ThreadStep(cf, g, th, t, c); KeepsWork(cf, g, th, g', th')
  {
    var (g', th') := ThreadStep(cf, g, th, t, c);
    match th.pc {
      case Zero(_, _, _, _) => ZeroKeeps(cf, g, th);
      case Local => LocalKeeps(cf, g, th, c);
      case Scan => ScanKeeps(cf, g, th);
      case Marking(_) => MarkKeeps(cf, g, th);
      case ReturnL(_) => ReturnKeeps(cf, g, th);
      case _ =>
        ControlMoves(cf, g, th, t, c);
        hide ThreadStep;
        SameWork(cf, g, th, g', th');
    }
  }

  lemma NoneLostKept(cf: Config, s: State, s': State, t: nat)
    requires NoneLost(cf, s) && t < |s.ts| == |s'.ts| && s'.ts == s.ts[t := s'.ts[t]]
    requires KeepsWork(cf, s.g, s.ts[t], s'.g, s'.ts[t])
    requires s.g.marked <= s'.g.marked && (s.g.invalid ==> s'.g.invalid)
    ensures NoneLost(cf, s')
  {
    forall a, k | !s'.g.invalid && Owed(cf, s'.g.marked, a) && 0 <= k < |cf.mem[a]|
      ensures Followed(cf, s'.g.marked, a, k) || Pending(s', a, k)
    {
      if !NewlyOwed(cf, s.g.marked, s'.g.marked, a) {
        assert Owed(cf, s.g.marked, a);
        if !Followed(cf, s.g.marked, a, k) && !OnGlobal(s.g.stack, a, k) {
          var u :| 0 <= u < |s.ts| && WorkOf(s.ts[u], a, k);
          if u != t {
            assert WorkOf(s'.ts[u], a, k);
          }
        }
      }
      if WorkOf(s'.ts[t], a, k) {
        assert Pending(s', a, k);
      }
    }
  }

  // What another thread u knows stays true when thread t moves.
  lemma StaysTrue(cf: Config, g: Shared, th: Thread, t: nat, g': Shared, th': Thread, other: Thread, u: nat)
    requires LocalInv(cf, g, th, t) && GoodMove(cf, g, th, t, g', th') && LocalInv(cf, g, other, u) && u != t
    requires (Active(other.pc) ==> g'.active > 0) && (Running(other.pc) ==> g'.helpers > 0)
    ensures LocalInv(cf, g', other, u)
  {
    hide ValidEntry, PointerAt;
  }

  lemma OthersKeep(cf: Config, s: State, s': State, t: nat, u: nat)
    requires ParInv(cf, s) && t < |s.ts| == |s'.ts| && u < |s.ts| && u != t && s'.ts == s.ts[t := s'.ts[t]]
    requires GoodMove(cf, s.g, s.ts[t], t, s'.g, s'.ts[t])
    requires s'.g.active == Count(s'.ts, Active) && s'.g.helpers == Count(s'.ts, Running)
    ensures LocalInv(cf, s'.g, s.ts[u], u)
  {
    assert LocalInv(cf, s.g, s.ts[u], u) && LocalInv(cf, s.g, s.ts[t], t);
    hide LocalInv, GoodMove, NoneLost, ParInv, Active, Running;
    assert s'.ts[u] == s.ts[u];
    CountZero(s'.ts, Active);
    CountZero(s'.ts, Running);
    StaysTrue(cf, s.g, s.ts[t], t, s'.g, s'.ts[t], s.ts[u], u);
  }

  lemma WakesKept(cf: Config, s: State, s': State, t: nat)
    requires |s.ts| > 0 && InitiatorWakes(s) && t < |s.ts| == |s'.ts| && s'.ts == s.ts[t := s'.ts[t]]
    requires GoodMove(cf, s.g, s.ts[t], t, s'.g, s'.ts[t])
    ensures InitiatorWakes(s')
  {
    if s'.ts[0].pc.Await? && 0 in s'.g.asleep && s'.g.helpers == 0 {
      if s.g.helpers > 0 {
        assert s'.ts[t].pc.NotifyEnd?;
      } else {
        assert s.ts[0].pc.Await? && 0 in s.g.asleep;
        var u :| 0 <= u < |s.ts| && s.ts[u].pc.NotifyEnd?;
        assert s'.ts[u].pc.NotifyEnd?;
      }
    }
  }

  lemma StepKeeps(cf: Config, s: State, t: nat, c: Choice)
    requires ParInv(cf, s) && t < |s.ts|
    ensures ParInv(cf, Step(cf, s, t, c))
  {
    var s' := Step(cf, s, t, c);
    assert LocalInv(cf, s.g, s.ts[t], t);
    MoveGood(cf, s.g, s.ts[t], t, c);
    MoveKeeps(cf, s.g, s.ts[t], t, c);
    hide ThreadStep, LocalInv, KeepsWork, NoneLost;
    CountUpdate(s.ts, t, s'.ts[t], Active);
    CountUpdate(s.ts, t, s'.ts[t], Running);
    NoneLostKept(cf, s, s', t);
    WakesKept(cf, s, s', t);
    forall u | 0 <= u < |s'.ts| ensures LocalInv(cf, s'.g, s'.ts[u], u) {
      if u != t { OthersKeep(cf, s, s', t, u); }
    }
  }

  lemma InitInv(cf: Config, s: State)
    requires Init(cf, s)
    ensures ParInv(cf, s)
  {
    CountZero(s.ts, Active);
    CountZero(s.ts, Running);
  }

  // The invariant holds after every schedule.
  lemma {:induction false} RunKeeps(cf: Config, s: State, sched: seq<Turn>)
    requires Init(cf, s)
    ensures ParInv(cf, Run(cf, s, sched)) && |Run(cf, s, sched).ts| == |s.ts|
  {
    if sched == [] {
      InitInv(cf, s);
    } else {
      RunKeeps(cf, s, sched[..|sched| - 1]);
      var u := sched[|sched| - 1];
      var s' := Run(cf, s, sched[..|sched| - 1]);
      if u.t < |s'.ts| {
        StepKeeps(cf, s', u.t, u.c);
      }
    }
  }

  // A thread that is not the initiator starts to help exactly when help is wanted and there are fewer than GC_markers.
  lemma JoinsIf(cf: Config, g: Shared, th: Thread, t: nat)
    requires !Running(th.pc)
    ensures var (g', th') := JoinStep(cf, g, th, t);
            && (th.pc.Idle? && g.lock == -1 && t != 0 ==> (Running(th'.pc) <==> g.wanted && g.helpers < cf.markers))
            && (g'.helpers > g.helpers ==> g'.helpers <= if th.pc.Start? then 1 else cf.markers)
  {
  }

  lemma FewHelpers(cf: Config, g: Shared, th: Thread, t: nat, c: Choice)
    requires GoodConfig(cf) && LocalInv(cf, g, th, t)
    ensures var (g', th') := ThreadStep(cf, g, th, t, c);
            g'.helpers > g.helpers ==> g'.helpers <= if th.pc.Start? then 1 else cf.markers
  {
    MoveGood(cf, g, th, t, c);
    hide LocalInv, GoodConfig;
    if !Running(th.pc) {
      JoinsIf(cf, g, th, t);
    } else {
      hide ThreadStep;
    }
  }

  // However the threads take turns, no more than GC_markers take part in marking, or only the initiator; and as many as
  // GC_helper_count says.
  lemma {:induction false} HelpersBounded(cf: Config, s0: State, sched: seq<Turn>)
    requires Init(cf, s0)
    ensures var s := Run(cf, s0, sched); Count(s.ts, Running) == s.g.helpers <= if cf.markers > 1 then cf.markers else 1
  {
    RunKeeps(cf, s0, sched);
    if sched != [] {
      var s := Run(cf, s0, sched[..|sched| - 1]);
      var u := sched[|sched| - 1];
      RunKeeps(cf, s0, sched[..|sched| - 1]);
      assert u.t < |s.ts| ==> LocalInv(cf, s.g, s.ts[u.t], u.t);
      hide ParInv, ThreadStep, LocalInv;
      HelpersBounded(cf, s0, sched[..|sched| - 1]);
      if u.t < |s.ts| { FewHelpers(cf, s.g, s.ts[u.t], u.t, u.c); }
    }
  }

  lemma LiveAbove(cf: Config, s: State, j: nat)
    requires ParInv(cf, s) && j < |s.g.stack| && s.g.stack[j].live
    ensures s.g.first <= j
  {
    assert LocalInv(cf, s.g, s.ts[0], 0);
    hide GoodThread, ValidEntry;
  }

  lemma WorkerActive(cf: Config, s: State, t: nat, a: Area, k: int)
    requires ParInv(cf, s) && t < |s.ts| && WorkOf(s.ts[t], a, k)
    ensures Active(s.ts[t].pc)
  {
    assert LocalInv(cf, s.g, s.ts[t], t);
    hide GoodStack, GoodPlace, ValidEntry, NoneLost;
  }

  lemma WhereWorkIs(cf: Config, s: State, a: Area, k: nat)
    requires ParInv(cf, s)
    requires !s.g.invalid && Owed(cf, s.g.marked, a) && k < |cf.mem[a]| && !Followed(cf, s.g.marked, a, k)
    ensures || (exists j :: s.g.first <= j < |s.g.stack| && s.g.stack[j].live && Covers(s.g.stack[j].e, a, k))
            || (exists t :: 0 <= t < |s.ts| && Active(s.ts[t].pc) && WorkOf(s.ts[t], a, k))
  {
    hide LocalInv, WorkOf, Covers, Active;
    assert Pending(s, a, k);
    if j: nat :| j < |s.g.stack| && s.g.stack[j].live && Covers(s.g.stack[j].e, a, k) {
      LiveAbove(cf, s, j);
    } else {
      var t: nat :| t < |s.ts| && WorkOf(s.ts[t], a, k);
      WorkerActive(cf, s, t, a, k);
    }
  }

  // Parallel marking loses no work: under every schedule, a word that still has to be followed is in an
  // entry at or above GC_first_nonempty, or with a thread counted as active, or MS_INVALID is set.
  lemma NoWorkLost(cf: Config, s0: State, sched: seq<Turn>, a: Area, k: nat)
    requires Init(cf, s0)
    requires var s := Run(cf, s0, sched);
             !s.g.invalid && Owed(cf, s.g.marked, a) && k < |cf.mem[a]| && !Followed(cf, s.g.marked, a, k)
    ensures var s := Run(cf, s0, sched);
            || (exists j :: s.g.first <= j < |s.g.stack| && s.g.stack[j].live && Covers(s.g.stack[j].e, a, k))
            || (exists t :: 0 <= t < |s.ts| && Active(s.ts[t].pc) && WorkOf(s.ts[t], a, k))
  {
    RunKeeps(cf, s0, sched);
    WhereWorkIs(cf, Run(cf, s0, sched), a, k);
  }

  // When GC_do_parallel_mark returns, no thread is marking, no work is left anywhere, and the mark
  // phase is complete unless MS_INVALID is set.
  lemma ParallelMarkDone(cf: Config, s0: State, sched: seq<Turn>)
    requires Init(cf, s0) && var s := Run(cf, s0, sched); |s.ts| > 0 && s.ts[0].pc.Finished?
    ensures var s := Run(cf, s0, sched);
            && (forall t :: 0 <= t < |s.ts| ==> !Running(s.ts[t].pc) && Resting(s.ts[t]))
            && (forall j :: 0 <= j < |s.g.stack| ==> !s.g.stack[j].live)
            && (s.g.invalid || forall a, k :: Owed(cf, s.g.marked, a) && 0 <= k < |cf.mem[a]| ==>
                 Followed(cf, s.g.marked, a, k))
  {
    RunKeeps(cf, s0, sched);
    var s := Run(cf, s0, sched);
    assert LocalInv(cf, s.g, s.ts[0], 0);
    CountZero(s.ts, Running);
    forall t | 0 <= t < |s.ts| ensures Resting(s.ts[t]) {
      assert LocalInv(cf, s.g, s.ts[t], t);
    }
  }

  // With the world stopped, the marked objects are then closed under reachability.
  lemma ParallelMarkClosed(cf: Config, s0: State, sched: seq<Turn>, o: Obj)
    requires Init(cf, s0) && cf.exempt == {}
    requires var s := Run(cf, s0, sched); |s.ts| > 0 && s.ts[0].pc.Finished? && !s.g.invalid
    requires var s := Run(cf, s0, sched); Reachable(cf.L, cf.mem, RootTargets(cf.L, cf.mem) + s.g.marked, o)
    ensures o in Run(cf, s0, sched).g.marked
  {
    var marked := Run(cf, s0, sched).g.marked;
    ParallelMarkDone(cf, s0, sched);
    forall a, x | Owed(cf, marked, a) && PointsTo(cf.L, cf.mem, a, x) ensures x in marked {
      var k :| 0 <= k < |cf.mem[a]| && cf.mem[a][k] in cf.L.resolve && cf.L.resolve[cf.mem[a][k]] == x;
      assert Followed(cf, marked, a, k);
    }
    forall x | x in RootTargets(cf.L, cf.mem) ensures x in marked {
      var a: Area :| !a.Heap? && PointsTo(cf.L, cf.mem, a, x);
      assert Owed(cf, marked, a);
    }
    forall x, y | x in marked && x in cf.L.block && cf.L.HasDescr(x) && PointsTo(cf.L, cf.mem, Heap(x), y)
      ensures y in marked
    {
      assert Owed(cf, marked, Heap(x));
    }
    var p :| ReachesBy(cf.L, cf.mem, RootTargets(cf.L, cf.mem) + marked, p, o);
    ClosedContainsReachable(cf.L, cf.mem, RootTargets(cf.L, cf.mem) + marked, marked, p, o);
  }

  /****** nothing unreachable gets marked ******/

  // bound is closed under pointers.
  ghost predicate ClosedBound(cf: Config, bound: set<Obj>) {
    forall a, k :: (a in cf.mem && InBound(cf, bound, a) && 0 <= k < |cf.mem[a]| && cf.mem[a][k] in cf.L.resolve) ==>
      cf.L.resolve[cf.mem[a][k]] in bound
  }

  ghost predicate InBound(cf: Config, bound: set<Obj>, a: Area) {
    a.Heap? ==> a.o in bound && a.o in cf.L.block && cf.L.HasDescr(a.o)
  }

  ghost predicate SharedWithin(cf: Config, bound: set<Obj>, g: Shared) {
    g.marked <= bound && forall j :: 0 <= j < |g.stack| ==> InBound(cf, bound, g.stack[j].e.area)
  }

  ghost predicate ThreadWithin(cf: Config, bound: set<Obj>, th: Thread) {
    && (forall i :: 0 <= i < |th.local| ==> InBound(cf, bound, th.local[i].area))
    && (th.hand.Hand? ==> InBound(cf, bound, th.hand.area))
    && (th.pc.Marking? ==> th.pc.o in bound)
  }

  lemma ZeroWithin(cf: Config, bound: set<Obj>, g: Shared, th: Thread)
    requires SharedWithin(cf, bound, g) && ThreadWithin(cf, bound, th) && th.pc.Zero?
    ensures var (g', th') := ZeroStep(g, th); SharedWithin(cf, bound, g') && ThreadWithin(cf, bound, th')
  {
  }

  lemma LocalWithin(cf: Config, bound: set<Obj>, th: Thread, c: Choice)
    requires ThreadWithin(cf, bound, th) && th.pc.Local?
    ensures ThreadWithin(cf, bound, LocalStep(th, c))
  {
    var n := |th.local|;
    assert n > 0 ==> InBound(cf, bound, th.local[n - 1].area);
    var th' := LocalStep(th, c);
    forall i | 0 <= i < |th'.local| ensures InBound(cf, bound, th'.local[i].area) {
      if i < n - 1 {
        assert InBound(cf, bound, th.local[i].area);
        assert th'.local[i] == th.local[i];
      }
    }
  }

  lemma ScanWithin(cf: Config, bound: set<Obj>, g: Shared, th: Thread)
    requires ClosedBound(cf, bound) && ThreadWithin(cf, bound, th) && th.pc.Scan?
    ensures ThreadWithin(cf, bound, ScanStep(cf, g, th))
  {
  }

  lemma MarkWithin(cf: Config, bound: set<Obj>, g: Shared, th: Thread)
    requires SharedWithin(cf, bound, g) && ThreadWithin(cf, bound, th) && th.pc.Marking?
    ensures var (g', th') := MarkStep(cf, g, th); SharedWithin(cf, bound, g') && ThreadWithin(cf, bound, th')
  {
  }

  lemma ReturnWithin(cf: Config, bound: set<Obj>, g: Shared, th: Thread)
    requires SharedWithin(cf, bound, g) && ThreadWithin(cf, bound, th) && th.pc.ReturnL?
    ensures var (g', th') := ReturnStep(cf, g, th); SharedWithin(cf, bound, g') && ThreadWithin(cf, bound, th')
  {
  }

  lemma MoveWithin(cf: Config, bound: set<Obj>, g: Shared, th: Thread, t: nat, c: Choice)
    requires ClosedBound(cf, bound) && SharedWithin(cf, bound, g) && ThreadWithin(cf, bound, th)
    ensures var (g', th') := ThreadStep(cf, g, th, t, c); SharedWithin(cf, bound, g') && ThreadWithin(cf, bound, th')
  {
    match th.pc {
      case Zero(_, _, _, _) => ZeroWithin(cf, bound, g, th);
      case Local => LocalWithin(cf, bound, th, c);
      case Scan => ScanWithin(cf, bound, g, th);
      case Marking(_) => MarkWithin(cf, bound, g, th);
      case ReturnL(_) => ReturnWithin(cf, bound, g, th);
      case _ =>
        ControlMoves(cf, g, th, t, c);
        hide ThreadStep;
    }
  }

  // Whatever the schedule, no object outside a closed set that contains the roots' targets, the marked
  // objects and the pending work gets marked.
  lemma {:induction false} OnlyReachableMarked(cf: Config, bound: set<Obj>, s: State, sched: seq<Turn>)
    requires ClosedBound(cf, bound) && SharedWithin(cf, bound, s.g)
    requires forall t :: 0 <= t < |s.ts| ==> ThreadWithin(cf, bound, s.ts[t])
    ensures var s' := Run(cf, s, sched);
            SharedWithin(cf, bound, s'.g) && forall t :: 0 <= t < |s'.ts| ==> ThreadWithin(cf, bound, s'.ts[t])
  {
    if sched != [] {
      OnlyReachableMarked(cf, bound, s, sched[..|sched| - 1]);
      var s' := Run(cf, s, sched[..|sched| - 1]);
      var u := sched[|sched| - 1];
      if u.t < |s'.ts| {
        MoveWithin(cf, bound, s'.g, s'.ts[u.t], u.t, u.c);
      }
    }
  }
}
