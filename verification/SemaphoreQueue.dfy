/** The queue with two counting semaphores around one mutex, posted after unlocking, as an interleaving
    of the steps of any number of threads. */
module SemaphoreQueue {
  import opened Counting
  import opened BoundedFifo

  datatype Pc<T> =
    | Idle
    | PutWait(x: T) | PutLock(x: T) | PutPush(x: T) | PutUnlock | PutPost
    | TakeWait | TakeLock | TakePop | TakeUnlock(x: T) | TakePost(x: T)

  datatype Holder = Free | HeldBy(thread: nat)

  datatype State<T> =
    State(threads: seq<Pc<T>>, mutex: Holder, notFull: nat, notEmpty: nat, queue: Buffer<T>, log: Log<T>)

  datatype Step<T> = CallPut(x: T) | CallTake | Wait | Acquire | Push | Pop | Unlock | Post

  // ---------- classes of program points ----------

  predicate Holding<T>(pc: Pc<T>) { pc.PutPush? || pc.PutUnlock? || pc.TakePop? || pc.TakeUnlock? }

  /** Holds a permit of not_full that its push will use. */
  predicate Pushing<T>(pc: Pc<T>) { pc.PutLock? || pc.PutPush? }

  /** Has pushed and still owes the post of not_empty. */
  predicate OwesNotEmpty<T>(pc: Pc<T>) { pc.PutUnlock? || pc.PutPost? }

  /** Holds a permit of not_empty that its pop will use. */
  predicate Popping<T>(pc: Pc<T>) { pc.TakeLock? || pc.TakePop? }

  /** Has popped and still owes the post of not_full. */
  predicate OwesNotFull<T>(pc: Pc<T>) { pc.TakeUnlock? || pc.TakePost? }

  // ---------- steps ----------

  predicate Enabled<T>(s: State<T>, t: nat, step: Step<T>) {
    t < |s.threads| &&
    var pc := s.threads[t];
    match step
    case CallPut(_) => pc.Idle?
    case CallTake => pc.Idle?
    case Wait => (pc.PutWait? && s.notFull > 0) || (pc.TakeWait? && s.notEmpty > 0)
    case Acquire => (pc.PutLock? || pc.TakeLock?) && s.mutex.Free?
    case Push => pc.PutPush?
    case Pop => pc.TakePop? && !s.queue.Empty()
    case Unlock => pc.PutUnlock? || pc.TakeUnlock?
    case Post => pc.PutPost? || pc.TakePost?
  }

  function Do<T>(s: State<T>, t: nat, step: Step<T>): State<T>
    requires Enabled(s, t, step)
  {
    var pc := s.threads[t];
    match step
    case CallPut(x) =>
      At(s, t, PutWait(x)).(log := s.log.(called := s.log.called + [Event(t, x)]))
    case CallTake =>
      At(s, t, TakeWait)
    case Wait =>
      if pc.PutWait? then At(s, t, PutLock(pc.x)).(notFull := s.notFull - 1)
      else At(s, t, TakeLock).(notEmpty := s.notEmpty - 1)
    case Acquire =>
      At(s, t, if pc.PutLock? then PutPush(pc.x) else TakePop).(mutex := HeldBy(t))
    case Push =>
      At(s, t, PutUnlock).(queue := s.queue.PushBack(pc.x), log := s.log.(pushed := s.log.pushed + [Event(t, pc.x)]))
    case Pop =>
      var front := s.queue.items[0];
      At(s, t, TakeUnlock(front)).(queue := s.queue.PopFront(),
                                   log := s.log.(popped := s.log.popped + [Event(t, front)]))
    case Unlock =>
      At(s, t, if pc.PutUnlock? then PutPost else TakePost(pc.x)).(mutex := Free)
    case Post =>
      if pc.PutPost? then At(s, t, Idle).(notEmpty := s.notEmpty + 1)
      else At(s, t, Idle).(notFull := s.notFull + 1, log := s.log.(returned := s.log.returned + [Event(t, pc.x)]))
  }

  function At<T>(s: State<T>, t: nat, pc: Pc<T>): State<T>
    requires t < |s.threads|
  {
    s.(threads := s.threads[t := pc])
  }

  /** A queue of the given capacity with n threads outside any call. */
  predicate Initial<T(==)>(s: State<T>) {
    && (forall t :: 0 <= t < |s.threads| ==> s.threads[t].Idle?)
    && s.mutex.Free? && s.queue.items == [] && s.log == Log([], [], [], [])
    && s.notFull == s.queue.capacity && s.notEmpty == 0
  }

  datatype Move<T> = Move(t: nat, step: Step<T>)

  ghost predicate Runs<T>(s: State<T>, moves: seq<Move<T>>, s': State<T>)
    decreases |moves|
  {
    if moves == [] then s' == s
    else
      var m := moves[0];
      Enabled(s, m.t, m.step) && Runs(Do(s, m.t, m.step), moves[1..], s')
  }

  // ---------- the invariant ----------

  ghost predicate Exclusive<T>(s: State<T>) {
    && (s.mutex.HeldBy? ==> s.mutex.thread < |s.threads|)
    && forall t :: 0 <= t < |s.threads| ==> (Holding(s.threads[t]) <==> s.mutex == HeldBy(t))
  }

  /** Every slot is accounted for by a permit, an item, a putter on its way to push or a taker on its
      way to post. */
  ghost predicate SlotLedger<T>(s: State<T>) {
    s.notFull + |s.queue.items| + Count(s.threads, Pushing) + Count(s.threads, OwesNotFull) == s.queue.capacity
  }

  /** Every item is accounted for by a permit, a taker on its way to pop or a putter on its way to post. */
  ghost predicate ItemLedger<T>(s: State<T>) {
    s.notEmpty + Count(s.threads, Popping) + Count(s.threads, OwesNotEmpty) == |s.queue.items|
  }

  ghost predicate Ledger<T>(s: State<T>) {
    SlotLedger(s) && ItemLedger(s)
  }

  function PendingPut<T>(pc: Pc<T>): seq<T> {
    if pc.PutWait? || pc.PutLock? || pc.PutPush? then [pc.x] else []
  }

  function PendingTake<T>(pc: Pc<T>): seq<T> {
    if pc.TakeUnlock? || pc.TakePost? then [pc.x] else []
  }

  /** Every thread has pushed, in order, the items it called put with, but for a put under way; and
      returns, in order, the items it popped, but for a take under way. */
  ghost predicate Logged<T>(s: State<T>) {
    forall t :: 0 <= t < |s.threads| ==>
      && ItemsOf(s.log.called, t) == ItemsOf(s.log.pushed, t) + PendingPut(s.threads[t])
      && ItemsOf(s.log.popped, t) == ItemsOf(s.log.returned, t) + PendingTake(s.threads[t])
  }

  function Abstract<T>(s: State<T>): Fifo<T> {
    Fifo(s.queue.items, s.queue.capacity, s.log.pushed, s.log.popped)
  }

  ghost predicate Inv<T>(s: State<T>) {
    Exclusive(s) && Ledger(s) && Logged(s) && InOrder(Abstract(s))
  }

  lemma InitialInv<T>(s: State<T>)
    requires Initial(s)
    ensures Inv(s)
  {
    CountNone(s.threads, Pushing);
    CountNone(s.threads, Popping);
    CountNone(s.threads, OwesNotEmpty);
    CountNone(s.threads, OwesNotFull);
  }

  lemma StepExclusive<T>(s: State<T>, t: nat, step: Step<T>)
    requires Exclusive(s) && Enabled(s, t, step)
    ensures Exclusive(Do(s, t, step))
  {
  }

  lemma StepSlots<T>(s: State<T>, t: nat, step: Step<T>)
    requires Ledger(s) && Enabled(s, t, step)
    ensures SlotLedger(Do(s, t, step))
  {
    var s' := Do(s, t, step);
    AssertsHold(s, t);
    CountUpdate(s.threads, t, s'.threads[t], Pushing);
    CountUpdate(s.threads, t, s'.threads[t], OwesNotFull);
    assert s'.threads == s.threads[t := s'.threads[t]];
  }

  lemma StepItems<T>(s: State<T>, t: nat, step: Step<T>)
    requires Ledger(s) && Enabled(s, t, step)
    ensures ItemLedger(Do(s, t, step))
  {
    var s' := Do(s, t, step);
    AssertsHold(s, t);
    CountUpdate(s.threads, t, s'.threads[t], Popping);
    CountUpdate(s.threads, t, s'.threads[t], OwesNotEmpty);
    assert s'.threads == s.threads[t := s'.threads[t]];
  }

  /** The two assertions of the code: a thread about to push sees room, one about to pop an item. */
  lemma AssertsHold<T>(s: State<T>, t: nat)
    requires Ledger(s) && t < |s.threads|
    ensures Pushing(s.threads[t]) ==> |s.queue.items| < s.queue.capacity && !s.queue.Full()
    ensures Popping(s.threads[t]) ==> !s.queue.Empty()
  {
    if Pushing(s.threads[t]) { CountPositive(s.threads, t, Pushing); }
    if Popping(s.threads[t]) { CountPositive(s.threads, t, Popping); }
  }

  lemma StepAppends<T>(s: State<T>, t: nat, step: Step<T>)
    requires Enabled(s, t, step)
    ensures var s' := Do(s, t, step);
            && s'.threads == s.threads[t := s'.threads[t]]
            && Appended(s.log.called, s.log.pushed, PendingPut(s.threads[t]),
                        s'.log.called, s'.log.pushed, PendingPut(s'.threads[t]), t)
            && Appended(s.log.popped, s.log.returned, PendingTake(s.threads[t]),
                        s'.log.popped, s'.log.returned, PendingTake(s'.threads[t]), t)
  {
  }

  lemma StepLogged<T>(s: State<T>, t: nat, step: Step<T>)
    requires Logged(s) && Enabled(s, t, step)
    ensures Logged(Do(s, t, step))
  {
    var s' := Do(s, t, step);
    StepAppends(s, t, step);
    var p, p' := PendingPut(s.threads[t]), PendingPut(s'.threads[t]);
    var q, q' := PendingTake(s.threads[t]), PendingTake(s'.threads[t]);
    forall u: nat | u < |s.threads|
      ensures ItemsOf(s'.log.called, u) == ItemsOf(s'.log.pushed, u) + PendingPut(s'.threads[u])
      ensures ItemsOf(s'.log.popped, u) == ItemsOf(s'.log.returned, u) + PendingTake(s'.threads[u])
    {
      if u == t {
        AppendedOwn(s.log.called, s.log.pushed, p, s'.log.called, s'.log.pushed, p', t);
        AppendedOwn(s.log.popped, s.log.returned, q, s'.log.popped, s'.log.returned, q', t);
      } else {
        AppendedOther(s.log.called, s.log.pushed, p, s'.log.called, s'.log.pushed, p', t, u);
        AppendedOther(s.log.popped, s.log.returned, q, s'.log.popped, s'.log.returned, q', t, u);
      }
    }
  }

  /** Each step is invisible to the atomic FIFO or is one of its steps: the push is the put, the pop
      is the take, and nothing in the circular buffer is overwritten. */
  lemma StepRefines<T(!new)>(s: State<T>, t: nat, step: Step<T>)
    requires Ledger(s) && Enabled(s, t, step)
    ensures step.Push? ==> AtomicPut(Abstract(s), Abstract(Do(s, t, step)), t, s.threads[t].x)
    ensures step.Pop? ==> AtomicTake(Abstract(s), Abstract(Do(s, t, step)), t)
    ensures !step.Push? && !step.Pop? ==> Abstract(Do(s, t, step)) == Abstract(s)
  {
    AssertsHold(s, t);
  }

  lemma StepInv<T(!new)>(s: State<T>, t: nat, step: Step<T>)
    requires Inv(s) && Enabled(s, t, step)
    ensures Inv(Do(s, t, step))
  {
    StepExclusive(s, t, step);
    StepSlots(s, t, step);
    StepItems(s, t, step);
    StepLogged(s, t, step);
    StepRefines(s, t, step);
    AtomicKeepsOrder(Abstract(s), Abstract(Do(s, t, step)), t);
  }

  // ---------- over whole runs ----------

  /** Every state of every run keeps the invariant: mutual exclusion, the permit ledger, FIFO order,
      and each thread's own order. */
  lemma {:induction false} RunInv<T(!new)>(s: State<T>, moves: seq<Move<T>>, s': State<T>)
    requires Inv(s) && Runs(s, moves, s')
    ensures Inv(s')
    decreases |moves|
  {
    if moves != [] {
      StepInv(s, moves[0].t, moves[0].step);
      RunInv(Do(s, moves[0].t, moves[0].step), moves[1..], s');
    }
  }

  /** In every run from a new queue: the ledger balances, both assertions hold, the items popped
      followed by those in the buffer are the items pushed, the items popped are the first pushed, each
      producer's pushes are a prefix of its calls, and each consumer's returns a prefix of its pops. */
  lemma RunIsFifo<T(!new)>(s: State<T>, moves: seq<Move<T>>, s': State<T>, t: nat)
    requires Initial(s) && Runs(s, moves, s') && t < |s'.threads|
    ensures Ledger(s')
    ensures s'.threads[t].PutPush? ==> |s'.queue.items| < s'.queue.capacity
    ensures s'.threads[t].TakePop? ==> s'.queue.items != []
    ensures Items(s'.log.pushed) == Items(s'.log.popped) + s'.queue.items
    ensures |s'.log.popped| <= |s'.log.pushed|
    ensures Items(s'.log.popped) == Items(s'.log.pushed[..|s'.log.popped|])
    ensures ItemsOf(s'.log.pushed[..|s'.log.popped|], t) <= ItemsOf(s'.log.pushed, t) <= ItemsOf(s'.log.called, t)
    ensures ItemsOf(s'.log.returned, t) <= ItemsOf(s'.log.popped, t)
  {
    InitialInv(s);
    RunInv(s, moves, s');
    AssertsHold(s', t);
    ProducerOrder(Abstract(s'), t);
  }

  /** No thread can move except to begin a call. */
  ghost predicate Stuck<T(!new)>(s: State<T>) {
    forall t: nat, step: Step<T> :: Enabled(s, t, step) ==> step.CallPut? || step.CallTake?
  }

  /** While some thread is past its semaphore wait, some thread can move: that thread itself, or the
      holder of the mutex it waits for. */
  lemma Progress<T>(s: State<T>, t: nat) returns (u: nat, step: Step<T>)
    requires Inv(s) && t < |s.threads|
    requires !s.threads[t].Idle? && !s.threads[t].PutWait? && !s.threads[t].TakeWait?
    ensures Enabled(s, u, step) && !step.CallPut? && !step.CallTake?
  {
    var pc := s.threads[t];
    u := if (pc.PutLock? || pc.TakeLock?) && s.mutex.HeldBy? then s.mutex.thread else t;
    pc := s.threads[u];
    AssertsHold(s, u);
    step := if pc.PutLock? || pc.TakeLock? then Acquire
            else if pc.PutPush? then Push
            else if pc.TakePop? then Pop
            else if pc.PutUnlock? || pc.TakeUnlock? then Unlock
            else Post;
  }

  lemma StuckMeansWaiting<T(!new)>(s: State<T>)
    requires Inv(s) && Stuck(s)
    ensures forall t :: 0 <= t < |s.threads| ==>
              s.threads[t].Idle? || s.threads[t].PutWait? || s.threads[t].TakeWait?
  {
    forall t | 0 <= t < |s.threads| ensures s.threads[t].Idle? || s.threads[t].PutWait? || s.threads[t].TakeWait? {
      if !(s.threads[t].Idle? || s.threads[t].PutWait? || s.threads[t].TakeWait?) {
        var u, step := Progress(s, t);
        assert false;
      }
    }
  }

  lemma WaitersFind<T(!new)>(s: State<T>, t: nat)
    requires Inv(s) && Stuck(s) && t < |s.threads|
    ensures s.threads[t].TakeWait? ==> s.queue.Empty()
    ensures s.threads[t].PutWait? ==> s.queue.Full()
  {
    StuckMeansWaiting(s);
    WaitingCounts(s.threads);
    assert !Enabled(s, t, Wait);
  }

  /** In a stuck state every thread under way waits on its semaphore, takers only with the queue empty
      and putters only with it full; so with room for one item no queue deadlocks. */
  lemma NoDeadlock<T(!new)>(s: State<T>, moves: seq<Move<T>>, s': State<T>)
    requires Initial(s) && Runs(s, moves, s')
    requires forall t: nat, step: Step<T> :: Enabled(s', t, step) ==> step.CallPut? || step.CallTake?
    ensures forall t :: 0 <= t < |s'.threads| ==>
              s'.threads[t].Idle? || s'.threads[t].PutWait? || s'.threads[t].TakeWait?
    ensures (exists t :: 0 <= t < |s'.threads| && s'.threads[t].TakeWait?) ==> s'.queue.items == []
    ensures (exists t :: 0 <= t < |s'.threads| && s'.threads[t].PutWait?) ==> |s'.queue.items| == s'.queue.capacity
    ensures s'.queue.capacity > 0 ==>
              (forall t :: 0 <= t < |s'.threads| ==> !s'.threads[t].TakeWait?)
              || (forall t :: 0 <= t < |s'.threads| ==> !s'.threads[t].PutWait?)
  {
    InitialInv(s);
    RunInv(s, moves, s');
    StuckMeansWaiting(s');
    forall t: nat | t < |s'.threads|
      ensures s'.threads[t].TakeWait? ==> s'.queue.Empty()
      ensures s'.threads[t].PutWait? ==> s'.queue.Full()
    {
      WaitersFind(s', t);
    }
  }

  lemma WaitingCounts<T>(threads: seq<Pc<T>>)
    requires forall t :: 0 <= t < |threads| ==> threads[t].Idle? || threads[t].PutWait? || threads[t].TakeWait?
    ensures Count(threads, Pushing) == Count(threads, Popping) == 0
    ensures Count(threads, OwesNotEmpty) == Count(threads, OwesNotFull) == 0
  {
    CountNone(threads, Pushing);
    CountNone(threads, Popping);
    CountNone(threads, OwesNotEmpty);
    CountNone(threads, OwesNotFull);
  }
}
