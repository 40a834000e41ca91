/** The queue with one mutex and two condition variables, signalled after unlocking, as an interleaving
    of the steps of any number of threads. */
module ConditionQueue {
  import opened Counting
  import opened BoundedFifo

  /** Where a thread stands. Woken threads have left the wait but not yet reacquired the mutex. */
  datatype Pc<T> =
    | Idle
    | PutLock(x: T) | PutTest(x: T) | PutParked(x: T) | PutWoken(x: T) | PutPush(x: T) | PutUnlock | PutSignal
    | TakeLock | TakeTest | TakeParked | TakeWoken | TakePop | TakeUnlock(x: T) | TakeSignal(x: T)

  datatype Holder = Free | HeldBy(thread: nat)

  datatype State<T> = State(threads: seq<Pc<T>>, mutex: Holder, queue: Buffer<T>, log: Log<T>)

  /** Signal carries the parked thread that it wakes, if any is parked; threads that a signal wakes
      beyond the first leave the wait by Spurious steps. */
  datatype Step<T> =
    | CallPut(x: T) | CallTake
    | Acquire | Test | Push | Pop | Unlock
    | Signal(woken: nat)
    | Spurious

  // ---------- classes of program points ----------

  predicate Holding<T>(pc: Pc<T>) {
    pc.PutTest? || pc.PutPush? || pc.PutUnlock? || pc.TakeTest? || pc.TakePop? || pc.TakeUnlock?
  }

  predicate WantsMutex<T>(pc: Pc<T>) {
    pc.PutLock? || pc.PutWoken? || pc.TakeLock? || pc.TakeWoken?
  }

  predicate ParkedTaker<T>(pc: Pc<T>) { pc.TakeParked? }

  predicate ParkedPutter<T>(pc: Pc<T>) { pc.PutParked? }

  /** A take that is under way, awake, and has not yet popped. */
  predicate AwakeTaker<T>(pc: Pc<T>) { pc.TakeLock? || pc.TakeTest? || pc.TakeWoken? || pc.TakePop? }

  /** A put that is under way, awake, and has not yet pushed. */
  predicate AwakePutter<T>(pc: Pc<T>) { pc.PutLock? || pc.PutTest? || pc.PutWoken? || pc.PutPush? }

  /** A put that has pushed and still owes the signal of not_empty. */
  predicate OwesNotEmpty<T>(pc: Pc<T>) { pc.PutUnlock? || pc.PutSignal? }

  /** A take that has popped and still owes the signal of not_full. */
  predicate OwesNotFull<T>(pc: Pc<T>) { pc.TakeUnlock? || pc.TakeSignal? }

  // ---------- steps ----------

  predicate Enabled<T>(s: State<T>, t: nat, step: Step<T>) {
    t < |s.threads| &&
    var pc := s.threads[t];
    match step
    case CallPut(_) => pc.Idle?
    case CallTake => pc.Idle?
    case Acquire => WantsMutex(pc) && s.mutex.Free?
    case Test => pc.PutTest? || pc.TakeTest?
    case Push => pc.PutPush?
    case Pop => pc.TakePop? && !s.queue.Empty()
    case Unlock => pc.PutUnlock? || pc.TakeUnlock?
    case Signal(w) =>
      if pc.PutSignal? then Wakes(s.threads, w, ParkedTaker)
      else pc.TakeSignal? && Wakes(s.threads, w, ParkedPutter)
    case Spurious => pc.PutParked? || pc.TakeParked?
  }

  /** w is parked on the signalled condition variable, or no thread is. */
  predicate Wakes<T>(threads: seq<Pc<T>>, w: nat, parked: Pc<T> -> bool) {
    (w < |threads| && parked(threads[w])) || Count(threads, parked) == 0
  }

  /** The parked thread w, if it is parked on that condition variable, goes on to reacquire the mutex. */
  function Wake<T>(threads: seq<Pc<T>>, w: nat, parked: Pc<T> -> bool): seq<Pc<T>> {
    if w < |threads| && parked(threads[w]) then threads[w := Woken(threads[w])] else threads
  }

  function Woken<T>(pc: Pc<T>): Pc<T> {
    if pc.PutParked? then PutWoken(pc.x) else if pc.TakeParked? then TakeWoken else pc
  }

  function Do<T>(s: State<T>, t: nat, step: Step<T>): State<T>
    requires Enabled(s, t, step)
  {
    var pc := s.threads[t];
    match step
    case CallPut(x) =>
      At(s, t, PutLock(x)).(log := s.log.(called := s.log.called + [Event(t, x)]))
    case CallTake =>
      At(s, t, TakeLock)
    case Acquire =>
      At(s, t, if pc.PutLock? || pc.PutWoken? then PutTest(pc.x) else TakeTest).(mutex := HeldBy(t))
    case Test =>
      if pc.PutTest? then
        if s.queue.Full() then At(s, t, PutParked(pc.x)).(mutex := Free) else At(s, t, PutPush(pc.x))
      else
        if s.queue.Empty() then At(s, t, TakeParked).(mutex := Free) else At(s, t, TakePop)
    case Push =>
      At(s, t, PutUnlock).(queue := s.queue.PushBack(pc.x), log := s.log.(pushed := s.log.pushed + [Event(t, pc.x)]))
    case Pop =>
      var front := s.queue.items[0];
      At(s, t, TakeUnlock(front)).(queue := s.queue.PopFront(),
                                   log := s.log.(popped := s.log.popped + [Event(t, front)]))
    case Unlock =>
      At(s, t, if pc.PutUnlock? then PutSignal else TakeSignal(pc.x)).(mutex := Free)
    case Signal(w) =>
      if pc.PutSignal? then
        s.(threads := Wake(s.threads[t := Idle], w, ParkedTaker))
      else
        s.(threads := Wake(s.threads[t := Idle], w, ParkedPutter),
           log := s.log.(returned := s.log.returned + [Event(t, pc.x)]))
    case Spurious =>
      At(s, t, Woken(pc))
  }

  function At<T>(s: State<T>, t: nat, pc: Pc<T>): State<T>
    requires t < |s.threads|
  {
    s.(threads := s.threads[t := pc])
  }

  /** A queue of the given capacity with n threads outside any call. */
  predicate Initial<T(==)>(s: State<T>) {
    && (forall t :: 0 <= t < |s.threads| ==> s.threads[t].Idle?)
    && s.mutex.Free? && s.queue.items == [] && s.log == Log([], [], [], [])
  }

  /** A step taken by thread t. */
  datatype Move<T> = Move(t: nat, step: Step<T>)

  /** s' is reached from s by the moves of a run. */
  ghost predicate Runs<T>(s: State<T>, moves: seq<Move<T>>, s': State<T>)
    decreases |moves|
  {
    if moves == [] then s' == s
    else
      var m := moves[0];
      Enabled(s, m.t, m.step) && Runs(Do(s, m.t, m.step), moves[1..], s')
  }

  // ---------- the invariant ----------

  /** The mutex is held by the one thread inside its critical section. */
  ghost predicate Exclusive<T>(s: State<T>) {
    && (s.mutex.HeldBy? ==> s.mutex.thread < |s.threads|)
    && forall t :: 0 <= t < |s.threads| ==> (Holding(s.threads[t]) <==> s.mutex == HeldBy(t))
  }

  /** The two assertions of the code: a thread about to push sees room, one about to pop an item. */
  ghost predicate Asserted<T>(s: State<T>) {
    && |s.queue.items| <= s.queue.capacity
    && forall t :: 0 <= t < |s.threads| ==>
         && (s.threads[t].PutPush? ==> !s.queue.Full())
         && (s.threads[t].TakePop? ==> !s.queue.Empty())
  }

  /** While a taker is parked, every item is matched by a signal still owed or by an awake taker. */
  ghost predicate TakersCovered<T>(s: State<T>) {
    Count(s.threads, ParkedTaker) > 0 ==>
      |s.queue.items| <= Count(s.threads, OwesNotEmpty) + Count(s.threads, AwakeTaker)
  }

  /** While a putter is parked, every free slot is matched by a signal still owed or by an awake putter. */
  ghost predicate PuttersCovered<T>(s: State<T>) {
    Count(s.threads, ParkedPutter) > 0 ==>
      s.queue.capacity - |s.queue.items| <= Count(s.threads, OwesNotFull) + Count(s.threads, AwakePutter)
  }

  ghost predicate NoLostWakeup<T>(s: State<T>) {
    TakersCovered(s) && PuttersCovered(s)
  }

  function PendingPut<T>(pc: Pc<T>): seq<T> {
    if pc.PutLock? || pc.PutTest? || pc.PutParked? || pc.PutWoken? || pc.PutPush? then [pc.x] else []
  }

  function PendingTake<T>(pc: Pc<T>): seq<T> {
    if pc.TakeUnlock? || pc.TakeSignal? then [pc.x] else []
  }

  /** Every thread has pushed, in order, the items it called put with, but for a put under way; and
      returns, in order, the items it popped, but for a take under way. */
  ghost predicate Logged<T>(s: State<T>) {
    forall t :: 0 <= t < |s.threads| ==>
      && ItemsOf(s.log.called, t) == ItemsOf(s.log.pushed, t) + PendingPut(s.threads[t])
      && ItemsOf(s.log.popped, t) == ItemsOf(s.log.returned, t) + PendingTake(s.threads[t])
  }

  function Abstract<T>(s: State<T>): Fifo<T> {
    Fifo(s.queue.items, s.queue.capacity, s.log.pushed, s.log.popped)
  }

  ghost predicate Inv<T>(s: State<T>) {
    Exclusive(s) && Asserted(s) && NoLostWakeup(s) && Logged(s) && InOrder(Abstract(s))
  }

  lemma InitialInv<T>(s: State<T>)
    requires Initial(s)
    ensures Inv(s)
  {
    CountNone(s.threads, ParkedTaker);
    CountNone(s.threads, ParkedPutter);
  }

  /** Moving one thread while the mutex stays put, or goes between free and that thread. */
  lemma ExclusiveAt<T>(s: State<T>, t: nat, pc: Pc<T>, m: Holder)
    requires Exclusive(s) && t < |s.threads|
    requires Holding(pc) <==> m == HeldBy(t)
    requires m == s.mutex || (s.mutex in {Free, HeldBy(t)} && m in {Free, HeldBy(t)})
    ensures Exclusive(At(s, t, pc).(mutex := m))
  {
  }

  lemma StepExclusive<T>(s: State<T>, t: nat, step: Step<T>)
    requires Exclusive(s) && Enabled(s, t, step)
    ensures Exclusive(Do(s, t, step))
  {
    var s' := Do(s, t, step);
    if !step.Signal? {
      ExclusiveAt(s, t, s'.threads[t], s'.mutex);
      assert s'.threads == At(s, t, s'.threads[t]).threads;
    }
  }

  /** Inside its critical section a thread is alone, so what it saw still holds when it acts. */
  lemma StepAsserted<T>(s: State<T>, t: nat, step: Step<T>)
    requires Exclusive(s) && Asserted(s) && Enabled(s, t, step)
    ensures Asserted(Do(s, t, step))
    ensures step.Push? ==> Do(s, t, step).queue.items == s.queue.items + [s.threads[t].x]
  {
    if step.Push? || step.Pop? {
      assert Holding(s.threads[t]);
      assert forall u :: 0 <= u < |s.threads| && Holding(s.threads[u]) ==> u == t;
    }
  }

  function Gain<T>(before: Pc<T>, after: Pc<T>, p: Pc<T> -> bool): int {
    (if p(after) then 1 else 0) - (if p(before) then 1 else 0)
  }

  /** How moving one thread changes the counts. */
  lemma RecountTakers<T>(threads: seq<Pc<T>>, t: nat, pc: Pc<T>)
    requires t < |threads|
    ensures Count(threads[t := pc], ParkedTaker) == Count(threads, ParkedTaker) + Gain(threads[t], pc, ParkedTaker)
    ensures Count(threads[t := pc], AwakeTaker) == Count(threads, AwakeTaker) + Gain(threads[t], pc, AwakeTaker)
    ensures Count(threads[t := pc], OwesNotEmpty) == Count(threads, OwesNotEmpty) + Gain(threads[t], pc, OwesNotEmpty)
  {
    CountUpdate(threads, t, pc, ParkedTaker);
    CountUpdate(threads, t, pc, AwakeTaker);
    CountUpdate(threads, t, pc, OwesNotEmpty);
  }

  lemma RecountPutters<T>(threads: seq<Pc<T>>, t: nat, pc: Pc<T>)
    requires t < |threads|
    ensures Count(threads[t := pc], ParkedPutter) == Count(threads, ParkedPutter) + Gain(threads[t], pc, ParkedPutter)
    ensures Count(threads[t := pc], AwakePutter) == Count(threads, AwakePutter) + Gain(threads[t], pc, AwakePutter)
    ensures Count(threads[t := pc], OwesNotFull) == Count(threads, OwesNotFull) + Gain(threads[t], pc, OwesNotFull)
  {
    CountUpdate(threads, t, pc, ParkedPutter);
    CountUpdate(threads, t, pc, AwakePutter);
    CountUpdate(threads, t, pc, OwesNotFull);
  }

  /** A push is owed a signal before any parked taker could miss it, and a taker parks only on an
      empty queue. */
  lemma StepTakers<T>(s: State<T>, t: nat, step: Step<T>)
    requires Asserted(s) && TakersCovered(s) && Enabled(s, t, step) && !step.Signal?
    ensures TakersCovered(Do(s, t, step))
  {
    var s' := Do(s, t, step);
    RecountTakers(s.threads, t, s'.threads[t]);
    assert s'.threads == s.threads[t := s'.threads[t]];
  }

  lemma StepPutters<T>(s: State<T>, t: nat, step: Step<T>)
    requires Asserted(s) && PuttersCovered(s) && Enabled(s, t, step) && !step.Signal?
    ensures PuttersCovered(Do(s, t, step))
  {
    var s' := Do(s, t, step);
    RecountPutters(s.threads, t, s'.threads[t]);
    assert s'.threads == s.threads[t := s'.threads[t]];
  }

  /** Waking one thread leaves the counts of the other kind alone. */
  lemma WakeOne<T>(threads: seq<Pc<T>>, w: nat)
    requires w < |threads| && (threads[w].TakeParked? || threads[w].PutParked?)
    ensures var after, d := threads[w := Woken(threads[w])], if threads[w].TakeParked? then 1 else 0;
            && Count(after, ParkedTaker) == Count(threads, ParkedTaker) - d
            && Count(after, AwakeTaker) == Count(threads, AwakeTaker) + d
            && Count(after, OwesNotEmpty) == Count(threads, OwesNotEmpty)
            && Count(after, ParkedPutter) == Count(threads, ParkedPutter) - (1 - d)
            && Count(after, AwakePutter) == Count(threads, AwakePutter) + (1 - d)
            && Count(after, OwesNotFull) == Count(threads, OwesNotFull)
  {
    RecountTakers(threads, w, Woken(threads[w]));
    RecountPutters(threads, w, Woken(threads[w]));
  }

  /** A signal of not_empty pays back one owed notification by waking one parked taker, or finds none. */
  lemma SignalTakers<T>(s: State<T>, t: nat, w: nat)
    requires TakersCovered(s) && Enabled(s, t, Signal(w))
    ensures TakersCovered(Do(s, t, Signal(w)))
  {
    var mid := s.threads[t := Idle];
    RecountTakers(s.threads, t, Idle);
    if w < |mid| && (mid[w].TakeParked? || mid[w].PutParked?) {
      WakeOne(mid, w);
      if mid[w].TakeParked? { CountPositive(s.threads, w, ParkedTaker); }
    }
  }

  lemma SignalPutters<T>(s: State<T>, t: nat, w: nat)
    requires PuttersCovered(s) && Enabled(s, t, Signal(w))
    ensures PuttersCovered(Do(s, t, Signal(w)))
  {
    var mid := s.threads[t := Idle];
    RecountPutters(s.threads, t, Idle);
    if w < |mid| && (mid[w].TakeParked? || mid[w].PutParked?) {
      WakeOne(mid, w);
      if mid[w].PutParked? { CountPositive(s.threads, w, ParkedPutter); }
    }
  }

  lemma StepAppends<T>(s: State<T>, t: nat, step: Step<T>)
    requires Enabled(s, t, step)
    ensures var s' := Do(s, t, step);
            && |s'.threads| == |s.threads|
            && Appended(s.log.called, s.log.pushed, PendingPut(s.threads[t]),
                        s'.log.called, s'.log.pushed, PendingPut(s'.threads[t]), t)
            && Appended(s.log.popped, s.log.returned, PendingTake(s.threads[t]),
                        s'.log.popped, s'.log.returned, PendingTake(s'.threads[t]), t)
  {
  }

  lemma StepElsewhere<T>(s: State<T>, t: nat, step: Step<T>, u: nat)
    requires Enabled(s, t, step) && u < |s.threads| && u != t
    ensures PendingPut(Do(s, t, step).threads[u]) == PendingPut(s.threads[u])
    ensures PendingTake(Do(s, t, step).threads[u]) == PendingTake(s.threads[u])
  {
  }

  lemma StepLogged<T>(s: State<T>, t: nat, step: Step<T>)
    requires Logged(s) && Enabled(s, t, step)
    ensures Logged(Do(s, t, step))
  {
    var s' := Do(s, t, step);
    StepAppends(s, t, step);
    var p, p' := PendingPut(s.threads[t]), PendingPut(s'.threads[t]);
    var q, q' := PendingTake(s.threads[t]), PendingTake(s'.threads[t]);
    forall u: nat | u < |s.threads|
      ensures ItemsOf(s'.log.called, u) == ItemsOf(s'.log.pushed, u) + PendingPut(s'.threads[u])
      ensures ItemsOf(s'.log.popped, u) == ItemsOf(s'.log.returned, u) + PendingTake(s'.threads[u])
    {
      if u == t {
        AppendedOwn(s.log.called, s.log.pushed, p, s'.log.called, s'.log.pushed, p', t);
        AppendedOwn(s.log.popped, s.log.returned, q, s'.log.popped, s'.log.returned, q', t);
      } else {
        StepElsewhere(s, t, step, u);
        AppendedOther(s.log.called, s.log.pushed, p, s'.log.called, s'.log.pushed, p', t, u);
        AppendedOther(s.log.popped, s.log.returned, q, s'.log.popped, s'.log.returned, q', t, u);
      }
    }
  }

  /** Each step is invisible to the atomic FIFO or is one of its steps: the push is the put, the pop
      is the take, and nothing in the circular buffer is overwritten. */
  lemma StepRefines<T(!new)>(s: State<T>, t: nat, step: Step<T>)
    requires Exclusive(s) && Asserted(s) && Enabled(s, t, step)
    ensures step.Push? ==> AtomicPut(Abstract(s), Abstract(Do(s, t, step)), t, s.threads[t].x)
    ensures step.Pop? ==> AtomicTake(Abstract(s), Abstract(Do(s, t, step)), t)
    ensures !step.Push? && !step.Pop? ==> Abstract(Do(s, t, step)) == Abstract(s)
  {
    StepAsserted(s, t, step);
  }

  lemma StepInv<T(!new)>(s: State<T>, t: nat, step: Step<T>)
    requires Inv(s) && Enabled(s, t, step)
    ensures Inv(Do(s, t, step))
  {
    StepExclusive(s, t, step);
    StepAsserted(s, t, step);
    StepLogged(s, t, step);
    StepRefines(s, t, step);
    AtomicKeepsOrder(Abstract(s), Abstract(Do(s, t, step)), t);
    if step.Signal? {
      SignalTakers(s, t, step.woken);
      SignalPutters(s, t, step.woken);
    } else {
      StepTakers(s, t, step);
      StepPutters(s, t, step);
    }
  }

  // ---------- over whole runs ----------

  /** Every state of every run keeps the invariant: mutual exclusion, both assertions, no lost wakeup,
      FIFO order, and each thread's own order. */
  lemma {:induction false} RunInv<T(!new)>(s: State<T>, moves: seq<Move<T>>, s': State<T>)
    requires Inv(s) && Runs(s, moves, s')
    ensures Inv(s')
    decreases |moves|
  {
    if moves != [] {
      StepInv(s, moves[0].t, moves[0].step);
      RunInv(Do(s, moves[0].t, moves[0].step), moves[1..], s');
    }
  }

  /** In every run from a new queue both assertions hold, the items popped followed by those in the buffer are the items
      pushed; the items popped are the first pushed; and each producer's pushes are a prefix of its
      calls, each consumer's returns a prefix of its pops. */
  lemma RunIsFifo<T(!new)>(s: State<T>, moves: seq<Move<T>>, s': State<T>, t: nat)
    requires Initial(s) && Runs(s, moves, s') && t < |s'.threads|
    ensures s'.threads[t].PutPush? ==> |s'.queue.items| < s'.queue.capacity
    ensures s'.threads[t].TakePop? ==> s'.queue.items != []
    ensures Items(s'.log.pushed) == Items(s'.log.popped) + s'.queue.items
    ensures |s'.log.popped| <= |s'.log.pushed|
    ensures Items(s'.log.popped) == Items(s'.log.pushed[..|s'.log.popped|])
    ensures ItemsOf(s'.log.pushed[..|s'.log.popped|], t) <= ItemsOf(s'.log.pushed, t) <= ItemsOf(s'.log.called, t)
    ensures ItemsOf(s'.log.returned, t) <= ItemsOf(s'.log.popped, t)
  {
    InitialInv(s);
    RunInv(s, moves, s');
    ProducerOrder(Abstract(s'), t);
  }

  /** No thread can move except to begin a call or to leave a wait spuriously. */
  ghost predicate Stuck<T(!new)>(s: State<T>) {
    forall t: nat, step: Step<T> :: Enabled(s, t, step) ==> step.CallPut? || step.CallTake? || step.Spurious?
  }

  /** While some thread is under way and not parked, some thread can go on with its call: that thread itself,
      or the holder of the mutex it waits for. */
  lemma Progress<T>(s: State<T>, t: nat) returns (u: nat, step: Step<T>)
    requires Inv(s) && t < |s.threads|
    requires !s.threads[t].Idle? && !s.threads[t].TakeParked? && !s.threads[t].PutParked?
    ensures Enabled(s, u, step) && !step.CallPut? && !step.CallTake? && !step.Spurious?
  {
    var pc := s.threads[t];
    u := if WantsMutex(pc) && s.mutex.HeldBy? then s.mutex.thread else t;
    pc := s.threads[u];
    if Holding(pc) {
      step :=
        if pc.PutTest? || pc.TakeTest? then Test else if pc.PutPush? then Push else if pc.TakePop? then Pop else Unlock;
    } else if WantsMutex(pc) {
      step := Acquire;
    } else {
      var w := SomeParked(s.threads, if pc.PutSignal? then ParkedTaker else ParkedPutter);
      step := Signal(w);
    }
  }

  lemma SomeParked<T>(threads: seq<Pc<T>>, parked: Pc<T> -> bool) returns (w: nat)
    ensures Wakes(threads, w, parked)
  {
    w := 0;
    if Count(threads, parked) > 0 {
      w := CountWitness(threads, parked);
    }
  }

  /** In a stuck state every thread under way is parked, takers only on an empty queue and putters only
      on a full one. */
  lemma StuckMeansParked<T(!new)>(s: State<T>)
    requires Inv(s) && Stuck(s)
    ensures forall t :: 0 <= t < |s.threads| ==>
              s.threads[t].Idle? || s.threads[t].TakeParked? || s.threads[t].PutParked?
    ensures (exists t :: 0 <= t < |s.threads| && s.threads[t].TakeParked?) ==> s.queue.items == []
    ensures (exists t :: 0 <= t < |s.threads| && s.threads[t].PutParked?) ==> |s.queue.items| == s.queue.capacity
  {
    forall t | 0 <= t < |s.threads| ensures s.threads[t].Idle? || s.threads[t].TakeParked? || s.threads[t].PutParked? {
      if !(s.threads[t].Idle? || s.threads[t].TakeParked? || s.threads[t].PutParked?) {
        var u, step := Progress(s, t);
        assert false;
      }
    }
    RestingCounts(s.threads);
  }

  lemma RestingCounts<T>(threads: seq<Pc<T>>)
    requires forall t :: 0 <= t < |threads| ==> threads[t].Idle? || threads[t].TakeParked? || threads[t].PutParked?
    ensures Count(threads, OwesNotEmpty) == Count(threads, OwesNotFull) == 0
    ensures Count(threads, AwakeTaker) == Count(threads, AwakePutter) == 0
    ensures (exists t :: 0 <= t < |threads| && threads[t].TakeParked?) ==> Count(threads, ParkedTaker) > 0
    ensures (exists t :: 0 <= t < |threads| && threads[t].PutParked?) ==> Count(threads, ParkedPutter) > 0
  {
    CountNone(threads, OwesNotEmpty);
    CountNone(threads, OwesNotFull);
    CountNone(threads, AwakeTaker);
    CountNone(threads, AwakePutter);
    CountNone(threads, ParkedTaker);
    CountNone(threads, ParkedPutter);
  }

  /** No run from a new queue ends with a parked putter and a parked taker and no thread able to move. */
  lemma NoDeadlock<T(!new)>(s: State<T>, moves: seq<Move<T>>, s': State<T>)
    requires Initial(s) && Runs(s, moves, s') && s'.queue.capacity > 0
    requires forall t: nat, step: Step<T> ::
               Enabled(s', t, step) ==> step.CallPut? || step.CallTake? || step.Spurious?
    ensures (forall t :: 0 <= t < |s'.threads| ==> !s'.threads[t].TakeParked?)
         || (forall t :: 0 <= t < |s'.threads| ==> !s'.threads[t].PutParked?)
  {
    InitialInv(s);
    RunInv(s, moves, s');
    StuckMeansParked(s');
  }
}
