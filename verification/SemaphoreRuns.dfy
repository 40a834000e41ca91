/** Runs of the semaphore queue: that calls complete, that waits end in a hand-over, and that every run
    without new calls comes to rest. */
module SemaphoreRuns {
  import opened BoundedFifo
  import opened SemaphoreQueue

  /** A new queue of any capacity, for any number of threads. */
  lemma NewQueue<T>(n: nat, capacity: nat)
    ensures Initial<T>(State(seq(n, _ => Idle), Free, capacity, 0, Buffer([], capacity), Log([], [], [], [])))
  {
  }

  lemma RunOne<T>(s: State<T>, m: Move<T>, rest: seq<Move<T>>, s': State<T>)
    requires Enabled(s, m.t, m.step) && Runs(Do(s, m.t, m.step), rest, s')
    ensures Runs(s, [m] + rest, s')
  {
    assert ([m] + rest)[1..] == rest;
  }

  lemma {:induction false} RunJoin<T>(s: State<T>, a: seq<Move<T>>, mid: State<T>, b: seq<Move<T>>, s': State<T>)
    requires Runs(s, a, mid) && Runs(mid, b, s')
    ensures Runs(s, a + b, s')
    decreases |a|
  {
    if a == [] {
      assert a + b == b;
    } else {
      RunJoin(Do(s, a[0].t, a[0].step), a[1..], mid, b, s');
      assert (a + b)[0] == a[0] && (a + b)[1..] == a[1..] + b;
    }
  }

  lemma TwoMoves<T>(s: State<T>, s1: State<T>, s2: State<T>, t: nat, a: Step<T>, b: Step<T>)
    requires Enabled(s, t, a) && s1 == Do(s, t, a)
    requires Enabled(s1, t, b) && s2 == Do(s1, t, b)
    ensures Runs(s, [Move(t, a), Move(t, b)], s2)
  {
    RunOne(s1, Move(t, b), [], s2);
    assert [Move(t, b)] + [] == [Move(t, b)];
    RunOne(s, Move(t, a), [Move(t, b)], s2);
    assert [Move(t, a)] + [Move(t, b)] == [Move(t, a), Move(t, b)];
  }

  lemma FiveMoves<T>(s: State<T>, a: seq<Move<T>>, s2: State<T>, b: seq<Move<T>>, s4: State<T>, m: Move<T>,
                     s5: State<T>)
    requires |a| == |b| == 2 && Runs(s, a, s2) && Runs(s2, b, s4) && Runs(s4, [m] + [], s5)
    ensures Runs(s, [a[0], a[1], b[0], b[1], m], s5)
  {
    RunJoin(s, a, s2, b, s4);
    RunJoin(s, a + b, s4, [m] + [], s5);
    assert a + b + ([m] + []) == [a[0], a[1], b[0], b[1], m];
  }

  // ---------- calls that meet no other thread ----------

  /** A take that waits for its permit, undisturbed, with a permit there: it returns the oldest item and
      gives the slot back. */
  lemma FinishTake<T>(s: State<T>, t: nat) returns (s': State<T>)
    requires t < |s.threads| && s.threads[t].TakeWait? && s.mutex == Free && s.notEmpty > 0 && s.queue.items != []
    ensures Runs(s, [Move(t, Wait), Move(t, Acquire), Move(t, Pop), Move(t, Unlock), Move(t, Post)], s')
    ensures var x := s.queue.items[0];
            s' == State(s.threads[t := Idle], Free, s.notFull + 1, s.notEmpty - 1,
                        Buffer(s.queue.items[1..], s.queue.capacity),
                        s.log.(popped := s.log.popped + [Event(t, x)], returned := s.log.returned + [Event(t, x)]))
  {
    var s1 := Do(s, t, Wait);
    var s2 := Do(s1, t, Acquire);
    var s3 := Do(s2, t, Pop);
    var s4 := Do(s3, t, Unlock);
    s' := Do(s4, t, Post);
    TwoMoves(s, s1, s2, t, Wait, Acquire);
    TwoMoves(s2, s3, s4, t, Pop, Unlock);
    RunOne(s4, Move(t, Post), [], s');
    FiveMoves(s, [Move(t, Wait), Move(t, Acquire)], s2, [Move(t, Pop), Move(t, Unlock)], s4, Move(t, Post), s');
  }

  /** A put that waits for its permit, undisturbed, with a permit there: it adds its item behind the others. */
  lemma FinishPut<T>(s: State<T>, t: nat) returns (s': State<T>)
    requires t < |s.threads| && s.threads[t].PutWait? && s.mutex == Free && s.notFull > 0
    requires |s.queue.items| < s.queue.capacity
    ensures Runs(s, [Move(t, Wait), Move(t, Acquire), Move(t, Push), Move(t, Unlock), Move(t, Post)], s')
    ensures var x := s.threads[t].x;
            s' == State(s.threads[t := Idle], Free, s.notFull - 1, s.notEmpty + 1,
                        Buffer(s.queue.items + [x], s.queue.capacity),
                        s.log.(pushed := s.log.pushed + [Event(t, x)]))
  {
    var s1 := Do(s, t, Wait);
    var s2 := Do(s1, t, Acquire);
    var s3 := Do(s2, t, Push);
    var s4 := Do(s3, t, Unlock);
    s' := Do(s4, t, Post);
    TwoMoves(s, s1, s2, t, Wait, Acquire);
    TwoMoves(s2, s3, s4, t, Push, Unlock);
    RunOne(s4, Move(t, Post), [], s');
    FiveMoves(s, [Move(t, Wait), Move(t, Acquire)], s2, [Move(t, Push), Move(t, Unlock)], s4, Move(t, Post), s');
  }

  /** take, from its call on, with no other thread in its way and a permit there. */
  lemma TakeAlone<T>(s: State<T>, t: nat) returns (s': State<T>)
    requires Inv(s) && t < |s.threads| && s.threads[t].Idle? && s.mutex == Free && s.notEmpty > 0
    ensures Runs(s, [Move(t, CallTake), Move(t, Wait), Move(t, Acquire), Move(t, Pop), Move(t, Unlock),
                     Move(t, Post)], s')
    ensures s.queue.items != []
    ensures var x := s.queue.items[0];
            s' == State(s.threads, Free, s.notFull + 1, s.notEmpty - 1,
                        Buffer(s.queue.items[1..], s.queue.capacity),
                        s.log.(popped := s.log.popped + [Event(t, x)], returned := s.log.returned + [Event(t, x)]))
  {
    var called := Do(s, t, CallTake);
    s' := FinishTake(called, t);
    assert called.threads[t := Idle] == s.threads;
    RunOne(s, Move(t, CallTake), [Move(t, Wait), Move(t, Acquire), Move(t, Pop), Move(t, Unlock), Move(t, Post)], s');
  }

  /** put, from its call on, with no other thread in its way and a permit there. */
  lemma PutAlone<T>(s: State<T>, t: nat, x: T) returns (s': State<T>)
    requires Inv(s) && t < |s.threads| && s.threads[t].Idle? && s.mutex == Free && s.notFull > 0
    ensures Runs(s, [Move(t, CallPut(x)), Move(t, Wait), Move(t, Acquire), Move(t, Push), Move(t, Unlock),
                     Move(t, Post)], s')
    ensures s' == State(s.threads, Free, s.notFull - 1, s.notEmpty + 1,
                        Buffer(s.queue.items + [x], s.queue.capacity),
                        s.log.(called := s.log.called + [Event(t, x)], pushed := s.log.pushed + [Event(t, x)]))
  {
    var called := Do(s, t, CallPut(x));
    s' := FinishPut(called, t);
    assert called.threads[t := Idle] == s.threads;
    RunOne(s, Move(t, CallPut(x)),
           [Move(t, Wait), Move(t, Acquire), Move(t, Push), Move(t, Unlock), Move(t, Post)], s');
  }

  /** A call without a permit waits, and nothing else changes. */
  lemma CallWaits<T>(s: State<T>, t: nat, call: Step<T>)
    requires t < |s.threads| && s.threads[t].Idle?
    requires (call.CallTake? && s.notEmpty == 0) || (call.CallPut? && s.notFull == 0)
    ensures Enabled(s, t, call)
    ensures Do(s, t, call).threads == s.threads[t := if call.CallTake? then TakeWait else PutWait(call.x)]
    ensures Do(s, t, call).queue == s.queue && forall step: Step<T> :: !Enabled(Do(s, t, call), t, step)
  {
  }

  /** A put hands its item to a taker that waits for a permit. */
  lemma HandOver<T>(s: State<T>, u: nat, t: nat, x: T) returns (moves: seq<Move<T>>, s': State<T>)
    requires Inv(s) && u < |s.threads| && s.threads[u].Idle? && t < |s.threads| && s.threads[t].TakeWait?
    requires s.mutex == Free && s.notEmpty == 0 && s.notFull > 0 && s.queue.items == []
    ensures Runs(s, moves, s') && s'.threads == s.threads[t := Idle] && s'.queue.items == []
    ensures s'.log.returned == s.log.returned + [Event(t, x)]
  {
    var put := PutAlone(s, u, x);
    s' := FinishTake(put, t);
    moves := [Move(u, CallPut(x)), Move(u, Wait), Move(u, Acquire), Move(u, Push), Move(u, Unlock), Move(u, Post)]
             + [Move(t, Wait), Move(t, Acquire), Move(t, Pop), Move(t, Unlock), Move(t, Post)];
    RunJoin(s, moves[..6], put, moves[6..], s');
  }

  /** A take makes room for a putter that waits for a permit. */
  lemma MakeRoom<T>(s: State<T>, u: nat, t: nat) returns (moves: seq<Move<T>>, s': State<T>)
    requires Inv(s) && u < |s.threads| && s.threads[u].Idle? && t < |s.threads| && s.threads[t].PutWait?
    requires s.mutex == Free && s.notFull == 0 && s.notEmpty > 0
    ensures Runs(s, moves, s') && s'.threads == s.threads[t := Idle]
    ensures s.queue.items != [] && s'.queue.items == s.queue.items[1..] + [s.threads[t].x]
    ensures s'.log.pushed == s.log.pushed + [Event(t, s.threads[t].x)]
  {
    var taken := TakeAlone(s, u);
    s' := FinishPut(taken, t);
    moves := [Move(u, CallTake), Move(u, Wait), Move(u, Acquire), Move(u, Pop), Move(u, Unlock), Move(u, Post)]
             + [Move(t, Wait), Move(t, Acquire), Move(t, Push), Move(t, Unlock), Move(t, Post)];
    RunJoin(s, moves[..6], taken, moves[6..], s');
  }

  // ---------- every run without new calls comes to rest ----------

  /** The steps that a thread has left to the end of its call. */
  function Left<T>(pc: Pc<T>): nat {
    match pc
    case Idle => 0
    case PutPost => 1
    case TakePost(_) => 1
    case PutUnlock => 2
    case TakeUnlock(_) => 2
    case PutPush(_) => 3
    case TakePop => 3
    case PutLock(_) => 4
    case TakeLock => 4
    case _ => 5
  }

  function Total<T>(threads: seq<Pc<T>>): (n: nat)
    ensures n <= 5 * |threads|
  {
    if threads == [] then 0 else Total(threads[..|threads| - 1]) + Left(threads[|threads| - 1])
  }

  lemma {:induction false} TotalUpdate<T>(threads: seq<Pc<T>>, t: nat, pc: Pc<T>)
    requires t < |threads|
    ensures Total(threads[t := pc]) + Left(threads[t]) == Total(threads) + Left(pc)
  {
    var n := |threads| - 1;
    if t < n {
      TotalUpdate(threads[..n], t, pc);
      assert threads[t := pc][..n] == threads[..n][t := pc];
    } else {
      assert threads[t := pc][..n] == threads[..n];
    }
  }

  /** Every step of a call is one step fewer to the end of the calls under way. */
  lemma StepLowers<T>(s: State<T>, t: nat, step: Step<T>)
    requires Enabled(s, t, step) && !step.CallPut? && !step.CallTake?
    ensures Total(Do(s, t, step).threads) == Total(s.threads) - 1 && |Do(s, t, step).threads| == |s.threads|
  {
    var s' := Do(s, t, step);
    TotalUpdate(s.threads, t, s'.threads[t]);
    assert s'.threads == s.threads[t := s'.threads[t]];
  }

  /** A run in which no call begins has at most five steps a thread. */
  lemma {:induction false} RunEnds<T>(s: State<T>, moves: seq<Move<T>>, s': State<T>)
    requires Runs(s, moves, s')
    requires forall m :: m in moves ==> !m.step.CallPut? && !m.step.CallTake?
    ensures |moves| + Total(s'.threads) == Total(s.threads) <= 5 * |s.threads|
    decreases |moves|
  {
    if moves != [] {
      var m := moves[0];
      assert m in moves;
      StepLowers(s, m.t, m.step);
      RunEnds(Do(s, m.t, m.step), moves[1..], s');
    }
  }

  /** From every state of every run there is one that ends with all calls returned or waiting for a permit,
      takers only with the queue empty and putters only with it full. */
  lemma {:induction false} RunToRest<T(!new)>(s: State<T>) returns (moves: seq<Move<T>>, s': State<T>)
    requires Inv(s)
    ensures Runs(s, moves, s') && |s'.threads| == |s.threads|
    ensures forall m :: m in moves ==> !m.step.CallPut? && !m.step.CallTake?
    ensures forall t :: 0 <= t < |s'.threads| ==>
              s'.threads[t].Idle? || s'.threads[t].TakeWait? || s'.threads[t].PutWait?
    ensures forall t :: 0 <= t < |s'.threads| && s'.threads[t].TakeWait? ==> s'.queue.items == []
    ensures forall t :: 0 <= t < |s'.threads| && s'.threads[t].PutWait? ==> |s'.queue.items| == s'.queue.capacity
    decreases Total(s.threads)
  {
    if t: nat, step: Step<T> :| Enabled(s, t, step) && !step.CallPut? && !step.CallTake? {
      StepLowers(s, t, step);
      StepInv(s, t, step);
      var rest;
      rest, s' := RunToRest(Do(s, t, step));
      moves := [Move(t, step)] + rest;
      RunOne(s, Move(t, step), rest, s');
    } else {
      moves, s' := [], s;
      StuckMeansWaiting(s);
      forall t: nat | t < |s.threads|
        ensures s.threads[t].TakeWait? ==> s.queue.Empty()
        ensures s.threads[t].PutWait? ==> s.queue.Full()
      {
        WaitersFind(s, t);
      }
    }
  }
}
