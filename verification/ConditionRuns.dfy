/** Runs of the condition-variable queue: that calls complete, that waits end in a hand-over, and that every
    run without new calls comes to rest. */
module ConditionRuns {
  import opened Counting
  import opened BoundedFifo
  import opened ConditionQueue

  /** A new queue of any capacity, for any number of threads. */
  lemma NewQueue<T>(n: nat, capacity: nat)
    ensures Initial<T>(State(seq(n, _ => Idle), Free, Buffer([], capacity), Log([], [], [], [])))
  {
  }

  /** No lost wakeup, in every run from a new queue: while a taker is parked, there are no more items than
      putters that have pushed and owe their signal and takers that are awake and have not popped; and
      symmetrically for free slots and putters. */
  lemma RunNoLostWakeup<T(!new)>(s: State<T>, moves: seq<Move<T>>, s': State<T>)
    requires Initial(s) && Runs(s, moves, s')
    ensures (exists t :: 0 <= t < |s'.threads| && s'.threads[t].TakeParked?) ==>
              |s'.queue.items|
                <= Count(s'.threads, (pc: Pc<T>) => pc.PutUnlock? || pc.PutSignal?)
                   + Count(s'.threads, (pc: Pc<T>) => pc.TakeLock? || pc.TakeTest? || pc.TakeWoken? || pc.TakePop?)
    ensures (exists t :: 0 <= t < |s'.threads| && s'.threads[t].PutParked?) ==>
              s'.queue.capacity - |s'.queue.items|
                <= Count(s'.threads, (pc: Pc<T>) => pc.TakeUnlock? || pc.TakeSignal?)
                   + Count(s'.threads, (pc: Pc<T>) => pc.PutLock? || pc.PutTest? || pc.PutWoken? || pc.PutPush?)
  {
    InitialInv(s);
    RunInv(s, moves, s');
    CountNone(s'.threads, ParkedTaker);
    CountNone(s'.threads, ParkedPutter);
    CountSame(s'.threads, OwesNotEmpty, (pc: Pc<T>) => pc.PutUnlock? || pc.PutSignal?);
    CountSame(s'.threads, OwesNotFull, (pc: Pc<T>) => pc.TakeUnlock? || pc.TakeSignal?);
    CountSame(s'.threads, AwakeTaker, (pc: Pc<T>) => pc.TakeLock? || pc.TakeTest? || pc.TakeWoken? || pc.TakePop?);
    CountSame(s'.threads, AwakePutter, (pc: Pc<T>) => pc.PutLock? || pc.PutTest? || pc.PutWoken? || pc.PutPush?);
  }

  // ---------- calls that meet no other thread ----------

  lemma RunOne<T>(s: State<T>, m: Move<T>, rest: seq<Move<T>>, s': State<T>)
    requires Enabled(s, m.t, m.step) && Runs(Do(s, m.t, m.step), rest, s')
    ensures Runs(s, [m] + rest, s')
  {
    assert ([m] + rest)[1..] == rest;
  }

  lemma {:induction false} RunJoin<T>(s: State<T>, a: seq<Move<T>>, mid: State<T>, b: seq<Move<T>>, s': State<T>)
    requires Runs(s, a, mid) && Runs(mid, b, s')
    ensures Runs(s, a + b, s')
    decreases |a|
  {
    if a == [] {
      assert a + b == b;
    } else {
      RunJoin(Do(s, a[0].t, a[0].step), a[1..], mid, b, s');
      assert (a + b)[0] == a[0] && (a + b)[1..] == a[1..] + b;
    }
  }

  /** w is parked as a taker, or as a putter, or no thread is. */
  ghost predicate Picks<T>(s: State<T>, w: nat, takers: bool) {
    if w < |s.threads| && (if takers then s.threads[w].TakeParked? else s.threads[w].PutParked?) then true
    else forall u :: 0 <= u < |s.threads| ==> !(if takers then s.threads[u].TakeParked? else s.threads[u].PutParked?)
  }

  lemma PicksWakes<T>(s: State<T>, t: nat, w: nat, pc: Pc<T>)
    requires t < |s.threads| && !s.threads[t].TakeParked? && !s.threads[t].PutParked?
    requires !pc.TakeParked? && !pc.PutParked?
    ensures Picks(s, w, true) ==> Wakes(s.threads[t := pc], w, ParkedTaker)
    ensures Picks(s, w, false) ==> Wakes(s.threads[t := pc], w, ParkedPutter)
  {
    CountNone(s.threads[t := pc], ParkedTaker);
    CountNone(s.threads[t := pc], ParkedPutter);
  }

  lemma TwoMoves<T>(s: State<T>, s1: State<T>, s2: State<T>, t: nat, a: Step<T>, b: Step<T>)
    requires Enabled(s, t, a) && s1 == Do(s, t, a)
    requires Enabled(s1, t, b) && s2 == Do(s1, t, b)
    ensures Runs(s, [Move(t, a), Move(t, b)], s2)
  {
    RunOne(s1, Move(t, b), [], s2);
    assert [Move(t, b)] + [] == [Move(t, b)];
    RunOne(s, Move(t, a), [Move(t, b)], s2);
    assert [Move(t, a)] + [Move(t, b)] == [Move(t, a), Move(t, b)];
  }

  lemma FiveMoves<T>(s: State<T>, a: seq<Move<T>>, s2: State<T>, b: seq<Move<T>>, s4: State<T>, m: Move<T>,
                     s5: State<T>)
    requires |a| == |b| == 2 && Runs(s, a, s2) && Runs(s2, b, s4) && Runs(s4, [m] + [], s5)
    ensures Runs(s, [a[0], a[1], b[0], b[1], m], s5)
  {
    RunJoin(s, a, s2, b, s4);
    RunJoin(s, a + b, s4, [m] + [], s5);
    assert a + b + ([m] + []) == [a[0], a[1], b[0], b[1], m];
  }

  /** A thread that takes the mutex tests the queue under it: it goes on, or parks and gives the mutex back. */
  lemma AcquireTest<T>(s: State<T>, t: nat) returns (s2: State<T>)
    requires t < |s.threads| && WantsMutex(s.threads[t]) && s.mutex == Free
    ensures Runs(s, [Move(t, Acquire), Move(t, Test)], s2)
    ensures var pc := s.threads[t];
            s2 == if pc.TakeLock? || pc.TakeWoken? then
                    if s.queue.items == [] then s.(threads := s.threads[t := TakeParked])
                    else s.(threads := s.threads[t := TakePop], mutex := HeldBy(t))
                  else
                    if |s.queue.items| == s.queue.capacity then s.(threads := s.threads[t := PutParked(pc.x)])
                    else s.(threads := s.threads[t := PutPush(pc.x)], mutex := HeldBy(t))
  {
    var s1 := Do(s, t, Acquire);
    s2 := Do(s1, t, Test);
    TwoMoves(s, s1, s2, t, Acquire, Test);
  }

  lemma PopUnlock<T>(s: State<T>, t: nat) returns (s2: State<T>)
    requires t < |s.threads| && s.threads[t].TakePop? && s.queue.items != []
    ensures Runs(s, [Move(t, Pop), Move(t, Unlock)], s2)
    ensures var x := s.queue.items[0];
            s2 == State(s.threads[t := TakeSignal(x)], Free, Buffer(s.queue.items[1..], s.queue.capacity),
                        s.log.(popped := s.log.popped + [Event(t, x)]))
  {
    var s1 := Do(s, t, Pop);
    s2 := Do(s1, t, Unlock);
    TwoMoves(s, s1, s2, t, Pop, Unlock);
  }

  lemma PushUnlock<T>(s: State<T>, t: nat) returns (s2: State<T>)
    requires t < |s.threads| && s.threads[t].PutPush? && |s.queue.items| < s.queue.capacity
    ensures Runs(s, [Move(t, Push), Move(t, Unlock)], s2)
    ensures var x := s.threads[t].x;
            s2 == State(s.threads[t := PutSignal], Free, Buffer(s.queue.items + [x], s.queue.capacity),
                        s.log.(pushed := s.log.pushed + [Event(t, x)]))
  {
    var s1 := Do(s, t, Push);
    s2 := Do(s1, t, Unlock);
    TwoMoves(s, s1, s2, t, Push, Unlock);
  }

  /** A take that wants the mutex, undisturbed, with an item there: it returns the oldest item, and wakes a
      parked putter if there is one. */
  lemma FinishTake<T>(s: State<T>, t: nat, w: nat) returns (s': State<T>)
    requires t < |s.threads| && (s.threads[t].TakeLock? || s.threads[t].TakeWoken?)
    requires s.mutex == Free && s.queue.items != [] && Picks(s, w, false)
    ensures Runs(s, [Move(t, Acquire), Move(t, Test), Move(t, Pop), Move(t, Unlock), Move(t, Signal(w))], s')
    ensures var x, idle := s.queue.items[0], s.threads[t := Idle];
            s' == State(if w < |s.threads| && s.threads[w].PutParked? then idle[w := PutWoken(s.threads[w].x)]
                        else idle,
                        Free, Buffer(s.queue.items[1..], s.queue.capacity),
                        s.log.(popped := s.log.popped + [Event(t, x)], returned := s.log.returned + [Event(t, x)]))
  {
    var x := s.queue.items[0];
    var s2 := AcquireTest(s, t);
    var s4 := PopUnlock(s2, t);
    assert s4.threads == s.threads[t := TakeSignal(x)];
    PicksWakes(s, t, w, TakeSignal(x));
    s' := Do(s4, t, Signal(w));
    assert s4.threads[t := Idle] == s.threads[t := Idle];
    RunOne(s4, Move(t, Signal(w)), [], s');
    FiveMoves(s, [Move(t, Acquire), Move(t, Test)], s2, [Move(t, Pop), Move(t, Unlock)], s4, Move(t, Signal(w)), s');
  }

  /** A put that wants the mutex, undisturbed, with room there: it adds its item behind the others, and wakes a
      parked taker if there is one. */
  lemma FinishPut<T>(s: State<T>, t: nat, w: nat) returns (s': State<T>)
    requires t < |s.threads| && (s.threads[t].PutLock? || s.threads[t].PutWoken?)
    requires s.mutex == Free && |s.queue.items| < s.queue.capacity && Picks(s, w, true)
    ensures Runs(s, [Move(t, Acquire), Move(t, Test), Move(t, Push), Move(t, Unlock), Move(t, Signal(w))], s')
    ensures var x, idle := s.threads[t].x, s.threads[t := Idle];
            s' == State(if w < |s.threads| && s.threads[w].TakeParked? then idle[w := TakeWoken] else idle,
                        Free, Buffer(s.queue.items + [x], s.queue.capacity),
                        s.log.(pushed := s.log.pushed + [Event(t, x)]))
  {
    var x := s.threads[t].x;
    var s2 := AcquireTest(s, t);
    var s4 := PushUnlock(s2, t);
    assert s4.threads == s.threads[t := PutSignal];
    PicksWakes(s, t, w, PutSignal);
    s' := Do(s4, t, Signal(w));
    assert s4.threads[t := Idle] == s.threads[t := Idle];
    RunOne(s4, Move(t, Signal(w)), [], s');
    FiveMoves(s, [Move(t, Acquire), Move(t, Test)], s2, [Move(t, Push), Move(t, Unlock)], s4, Move(t, Signal(w)), s');
  }

  /** take, from its call on, with no other thread in its way and an item there. */
  lemma TakeAlone<T>(s: State<T>, t: nat, w: nat) returns (s': State<T>)
    requires t < |s.threads| && s.threads[t].Idle? && s.mutex == Free && s.queue.items != [] && Picks(s, w, false)
    ensures Runs(s, [Move(t, CallTake), Move(t, Acquire), Move(t, Test), Move(t, Pop), Move(t, Unlock),
                     Move(t, Signal(w))], s')
    ensures var x, idle := s.queue.items[0], s.threads[t := Idle];
            s' == State(if w < |s.threads| && s.threads[w].PutParked? then idle[w := PutWoken(s.threads[w].x)]
                        else idle,
                        Free, Buffer(s.queue.items[1..], s.queue.capacity),
                        s.log.(popped := s.log.popped + [Event(t, x)], returned := s.log.returned + [Event(t, x)]))
  {
    var called := Do(s, t, CallTake);
    PicksCalled(s, called, t, w, false);
    s' := FinishTake(called, t, w);
    assert called.threads[t := Idle] == s.threads[t := Idle];
    RunOne(s, Move(t, CallTake),
           [Move(t, Acquire), Move(t, Test), Move(t, Pop), Move(t, Unlock), Move(t, Signal(w))], s');
  }

  /** put, from its call on, with no other thread in its way and room there. */
  lemma PutAlone<T>(s: State<T>, t: nat, x: T, w: nat) returns (s': State<T>)
    requires t < |s.threads| && s.threads[t].Idle? && s.mutex == Free
    requires |s.queue.items| < s.queue.capacity && Picks(s, w, true)
    ensures Runs(s, [Move(t, CallPut(x)), Move(t, Acquire), Move(t, Test), Move(t, Push), Move(t, Unlock),
                     Move(t, Signal(w))], s')
    ensures var idle := s.threads[t := Idle];
            s' == State(if w < |s.threads| && s.threads[w].TakeParked? then idle[w := TakeWoken] else idle,
                        Free, Buffer(s.queue.items + [x], s.queue.capacity),
                        s.log.(called := s.log.called + [Event(t, x)], pushed := s.log.pushed + [Event(t, x)]))
  {
    var called := Do(s, t, CallPut(x));
    PicksCalled(s, called, t, w, true);
    s' := FinishPut(called, t, w);
    assert called.threads[t := Idle] == s.threads[t := Idle];
    RunOne(s, Move(t, CallPut(x)),
           [Move(t, Acquire), Move(t, Test), Move(t, Push), Move(t, Unlock), Move(t, Signal(w))], s');
  }

  lemma PicksCalled<T>(s: State<T>, called: State<T>, t: nat, w: nat, takers: bool)
    requires t < |s.threads| && s.threads[t].Idle? && Picks(s, w, takers)
    requires |called.threads| == |s.threads| && called.threads == s.threads[t := called.threads[t]]
    requires !called.threads[t].TakeParked? && !called.threads[t].PutParked?
    ensures Picks(called, w, takers)
  {
  }

  /** A call that finds an empty queue, or a full one, parks and gives the mutex back. */
  lemma CallParks<T>(s: State<T>, t: nat, call: Step<T>) returns (s': State<T>)
    requires t < |s.threads| && s.threads[t].Idle? && s.mutex == Free
    requires (call.CallTake? && s.queue.items == []) || (call.CallPut? && |s.queue.items| == s.queue.capacity)
    ensures Runs(s, [Move(t, call), Move(t, Acquire), Move(t, Test)], s')
    ensures s'.threads == s.threads[t := if call.CallTake? then TakeParked else PutParked(call.x)]
    ensures s'.mutex == Free && s'.queue == s.queue && s'.log.pushed == s.log.pushed && s'.log.popped == s.log.popped
  {
    var s1 := Do(s, t, call);
    s' := AcquireTest(s1, t);
    RunOne(s, Move(t, call), [Move(t, Acquire), Move(t, Test)], s');
    assert [Move(t, call)] + [Move(t, Acquire), Move(t, Test)] == [Move(t, call), Move(t, Acquire), Move(t, Test)];
  }

  /** A put hands its item to a parked taker that its signal wakes. */
  lemma HandOver<T>(s: State<T>, u: nat, t: nat, x: T, w: nat) returns (moves: seq<Move<T>>, s': State<T>)
    requires u < |s.threads| && s.threads[u].Idle? && t < |s.threads| && s.threads[t].TakeParked?
    requires s.mutex == Free && s.queue.items == [] && s.queue.capacity > 0 && Picks(s, w, false)
    ensures Runs(s, moves, s') && |s'.threads| == |s.threads| && s'.threads[u].Idle? && s'.threads[t].Idle?
    ensures s'.queue.items == []
    ensures s'.log.returned == s.log.returned + [Event(t, x)]
  {
    var put := PutAlone(s, u, x, t);
    s' := FinishTake(put, t, w);
    moves := [Move(u, CallPut(x)), Move(u, Acquire), Move(u, Test), Move(u, Push), Move(u, Unlock), Move(u, Signal(t))]
             + [Move(t, Acquire), Move(t, Test), Move(t, Pop), Move(t, Unlock), Move(t, Signal(w))];
    RunJoin(s, moves[..6], put, moves[6..], s');
  }

  /** A take makes room for a parked putter that its signal wakes. */
  lemma MakeRoom<T>(s: State<T>, u: nat, t: nat, w: nat) returns (moves: seq<Move<T>>, s': State<T>)
    requires u < |s.threads| && s.threads[u].Idle? && t < |s.threads| && s.threads[t].PutParked?
    requires s.mutex == Free && s.queue.items != [] && |s.queue.items| == s.queue.capacity && Picks(s, w, true)
    ensures Runs(s, moves, s') && |s'.threads| == |s.threads| && s'.threads[u].Idle? && s'.threads[t].Idle?
    ensures s'.queue.items == s.queue.items[1..] + [s.threads[t].x]
    ensures s'.log.pushed == s.log.pushed + [Event(t, s.threads[t].x)]
  {
    var taken := TakeAlone(s, u, t);
    s' := FinishPut(taken, t, w);
    moves := [Move(u, CallTake), Move(u, Acquire), Move(u, Test), Move(u, Pop), Move(u, Unlock), Move(u, Signal(t))]
             + [Move(t, Acquire), Move(t, Test), Move(t, Push), Move(t, Unlock), Move(t, Signal(w))];
    RunJoin(s, moves[..6], taken, moves[6..], s');
  }

  /** A parked thread may leave its wait at any time; it then has to take the mutex and test again. */
  lemma SpuriousWake<T>(s: State<T>, t: nat)
    requires t < |s.threads| && (s.threads[t].PutParked? || s.threads[t].TakeParked?)
    ensures Enabled(s, t, Spurious)
    ensures Do(s, t, Spurious) ==
            s.(threads := s.threads[t := if s.threads[t].PutParked? then PutWoken(s.threads[t].x) else TakeWoken])
  {
  }

  // ---------- every run without new calls comes to rest ----------

  /** How far a thread is from the end of its call; the signal that it still owes weighs as much as waking
      another thread. */
  function Left<T>(pc: Pc<T>): nat {
    match pc
    case Idle => 0
    case PutParked(_) => 5
    case TakeParked => 5
    case PutSignal => 6
    case TakeSignal(_) => 6
    case PutUnlock => 7
    case TakeUnlock(_) => 7
    case PutPush(_) => 8
    case TakePop => 8
    case PutTest(_) => 9
    case TakeTest => 9
    case _ => 10
  }

  function Total<T>(threads: seq<Pc<T>>): (n: nat)
    ensures n <= 10 * |threads|
  {
    if threads == [] then 0 else Total(threads[..|threads| - 1]) + Left(threads[|threads| - 1])
  }

  lemma {:induction false} TotalUpdate<T>(threads: seq<Pc<T>>, t: nat, pc: Pc<T>)
    requires t < |threads|
    ensures Total(threads[t := pc]) + Left(threads[t]) == Total(threads) + Left(pc)
  {
    var n := |threads| - 1;
    if t < n {
      TotalUpdate(threads[..n], t, pc);
      assert threads[t := pc][..n] == threads[..n][t := pc];
    } else {
      assert threads[t := pc][..n] == threads[..n];
    }
  }

  lemma OwnStepLowers<T>(s: State<T>, t: nat, step: Step<T>)
    requires Enabled(s, t, step) && !step.CallPut? && !step.CallTake? && !step.Spurious? && !step.Signal?
    ensures |Do(s, t, step).threads| == |s.threads| && Left(Do(s, t, step).threads[t]) < Left(s.threads[t])
    ensures Do(s, t, step).threads == s.threads[t := Do(s, t, step).threads[t]]
  {
  }

  lemma WakeRaises<T>(threads: seq<Pc<T>>, w: nat, parked: Pc<T> -> bool)
    requires parked == ParkedTaker || parked == ParkedPutter
    ensures Total(Wake(threads, w, parked)) <= Total(threads) + 5 && |Wake(threads, w, parked)| == |threads|
  {
    if w < |threads| && parked(threads[w]) {
      TotalUpdate(threads, w, Woken(threads[w]));
    }
  }

  /** Every step of a call, waking included, brings the threads closer to the end of their calls. */
  lemma StepLowers<T>(s: State<T>, t: nat, step: Step<T>)
    requires Enabled(s, t, step) && !step.CallPut? && !step.CallTake? && !step.Spurious?
    ensures Total(Do(s, t, step).threads) < Total(s.threads) && |Do(s, t, step).threads| == |s.threads|
  {
    if step.Signal? {
      TotalUpdate(s.threads, t, Idle);
      WakeRaises(s.threads[t := Idle], step.woken, if s.threads[t].PutSignal? then ParkedTaker else ParkedPutter);
    } else {
      OwnStepLowers(s, t, step);
      TotalUpdate(s.threads, t, Do(s, t, step).threads[t]);
    }
  }

  /** A run in which no call begins and no thread leaves its wait spuriously has at most ten steps a thread. */
  lemma {:induction false} RunEnds<T>(s: State<T>, moves: seq<Move<T>>, s': State<T>)
    requires Runs(s, moves, s')
    requires forall m :: m in moves ==> !m.step.CallPut? && !m.step.CallTake? && !m.step.Spurious?
    ensures |moves| + Total(s'.threads) <= Total(s.threads) <= 10 * |s.threads|
    decreases |moves|
  {
    if moves != [] {
      var m := moves[0];
      assert m in moves;
      StepLowers(s, m.t, m.step);
      RunEnds(Do(s, m.t, m.step), moves[1..], s');
    }
  }

  /** From every state of every run there is one that ends with all calls returned or parked, takers only on
      an empty queue and putters only on a full one. */
  lemma {:induction false} RunToRest<T(!new)>(s: State<T>) returns (moves: seq<Move<T>>, s': State<T>)
    requires Inv(s)
    ensures Runs(s, moves, s') && |s'.threads| == |s.threads|
    ensures forall m :: m in moves ==> !m.step.CallPut? && !m.step.CallTake? && !m.step.Spurious?
    ensures forall t :: 0 <= t < |s'.threads| ==>
              s'.threads[t].Idle? || s'.threads[t].TakeParked? || s'.threads[t].PutParked?
    ensures (exists t :: 0 <= t < |s'.threads| && s'.threads[t].TakeParked?) ==> s'.queue.items == []
    ensures (exists t :: 0 <= t < |s'.threads| && s'.threads[t].PutParked?) ==> |s'.queue.items| == s'.queue.capacity
    decreases Total(s.threads)
  {
    if t: nat :| t < |s.threads| && !s.threads[t].Idle? && !s.threads[t].TakeParked? && !s.threads[t].PutParked? {
      var u, step := Progress(s, t);
      StepLowers(s, u, step);
      StepInv(s, u, step);
      var rest;
      rest, s' := RunToRest(Do(s, u, step));
      moves := [Move(u, step)] + rest;
      RunOne(s, Move(u, step), rest, s');
    } else {
      moves, s' := [], s;
      RestIsStuck(s);
      StuckMeansParked(s);
    }
  }

  lemma RestIsStuck<T(!new)>(s: State<T>)
    requires forall t :: 0 <= t < |s.threads| ==>
               s.threads[t].Idle? || s.threads[t].TakeParked? || s.threads[t].PutParked?
    ensures Stuck(s)
  {
  }
}
