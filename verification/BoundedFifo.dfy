/** The circular buffer behind the queues, and the atomic bounded FIFO that both protocols refine. */
module BoundedFifo {

  /** A circular buffer of fixed capacity, oldest item first. */
  datatype Buffer<T> = Buffer(items: seq<T>, capacity: nat) {
    predicate Full() { |items| == capacity }

    predicate Empty() { items == [] }

    /** push_back overwrites the oldest item of a full buffer, and ignores the item without capacity. */
    function PushBack(x: T): (b: Buffer<T>)
      ensures b.capacity == capacity
      ensures |items| <= capacity ==>
                b.items == (items + [x])[(if |items| < capacity then 0 else 1)..] && |b.items| <= capacity
    {
      if capacity == 0 then this
      else if |items| >= capacity then this.(items := items[1..] + [x])
      else this.(items := items + [x])
    }

    function PopFront(): Buffer<T>
      requires !Empty()
    {
      this.(items := items[1..])
    }
  }

  /** An item together with the thread that put or took it. */
  datatype Event<T> = Event(thread: nat, item: T)

  /** The calls of a run: puts called, pushes and pops in their order on the buffer, takes returned. */
  datatype Log<T> = Log(called: seq<Event<T>>, pushed: seq<Event<T>>, popped: seq<Event<T>>, returned: seq<Event<T>>)

  function Items<T>(es: seq<Event<T>>): seq<T> {
    if es == [] then [] else Items(es[..|es| - 1]) + [es[|es| - 1].item]
  }

  /** The items of one thread, in order. */
  function ItemsOf<T>(es: seq<Event<T>>, t: nat): seq<T> {
    if es == [] then []
    else
      ItemsOf(es[..|es| - 1], t) + (if es[|es| - 1].thread == t then [es[|es| - 1].item] else [])
  }

  /** Items are those of the events, in order. */
  lemma {:induction false} ItemsAt<T>(es: seq<Event<T>>, i: nat)
    requires i < |es|
    ensures |Items(es)| == |es| && Items(es)[i] == es[i].item
  {
    if i < |es| - 1 {
      ItemsAt(es[..|es| - 1], i);
    } else if i > 0 {
      ItemsAt(es[..|es| - 1], i - 1);
    }
  }

  /** The items of a thread are those of its own events, in order. */
  lemma {:induction false} ItemsOfConcat<T>(a: seq<Event<T>>, b: seq<Event<T>>, t: nat)
    ensures ItemsOf(a + b, t) == ItemsOf(a, t) + ItemsOf(b, t)
  {
    if b == [] {
      assert a + b == a;
    } else {
      var n := |b| - 1;
      ItemsOfConcat(a, b[..n], t);
      assert a + b == (a + b[..n]) + [b[n]] && b == b[..n] + [b[n]];
      ItemsOfSnoc(a + b[..n], b[n], t);
      ItemsOfSnoc(b[..n], b[n], t);
    }
  }

  lemma ItemsOfOne<T>(e: Event<T>, t: nat)
    ensures ItemsOf([e], t) == if e.thread == t then [e.item] else []
  {
    ItemsOfSnoc([], e, t);
    assert [] + [e] == [e];
  }

  lemma ItemsSnoc<T>(es: seq<Event<T>>, e: Event<T>)
    ensures Items(es + [e]) == Items(es) + [e.item]
    ensures |Items(es + [e])| == |Items(es)| + 1
  {
    assert (es + [e])[..|es|] == es;
  }

  lemma ItemsOfSnoc<T>(es: seq<Event<T>>, e: Event<T>, t: nat)
    ensures ItemsOf(es + [e], t) == ItemsOf(es, t) + (if e.thread == t then [e.item] else [])
  {
    assert (es + [e])[..|es|] == es;
  }

  lemma {:induction false} ItemsPrefix<T>(es: seq<Event<T>>, n: nat, t: nat)
    requires n <= |es|
    ensures |Items(es)| == |es|
    ensures Items(es[..n]) == Items(es)[..n]
    ensures ItemsOf(es[..n], t) <= ItemsOf(es, t)
  {
    if n == |es| {
      assert es[..n] == es;
      if es != [] { ItemsPrefix(es[..|es| - 1], |es| - 1, t); }
    } else {
      ItemsPrefix(es[..|es| - 1], n, t);
      assert es[..|es| - 1][..n] == es[..n];
    }
  }

  /** Thread t adds an item to a, which becomes pending, or passes its pending item on to b, or neither. */
  ghost predicate Appended<T>(a: seq<Event<T>>, b: seq<Event<T>>, pending: seq<T>,
                              a': seq<Event<T>>, b': seq<Event<T>>, pending': seq<T>, t: nat)
  {
    || (a' == a && b' == b && pending' == pending)
    || (pending == [] && |pending'| == 1 && a' == a + [Event(t, pending'[0])] && b' == b)
    || (pending' == [] && |pending| == 1 && b' == b + [Event(t, pending[0])] && a' == a)
  }

  lemma AppendedOwn<T>(a: seq<Event<T>>, b: seq<Event<T>>, pending: seq<T>,
                       a': seq<Event<T>>, b': seq<Event<T>>, pending': seq<T>, t: nat)
    requires Appended(a, b, pending, a', b', pending', t)
    requires ItemsOf(a, t) == ItemsOf(b, t) + pending
    ensures ItemsOf(a', t) == ItemsOf(b', t) + pending'
  {
    if a' != a {
      ItemsOfSnoc(a, Event(t, pending'[0]), t);
      assert pending' == [pending'[0]];
    } else if b' != b {
      ItemsOfSnoc(b, Event(t, pending[0]), t);
      assert pending == [pending[0]];
    }
  }

  lemma AppendedOther<T>(a: seq<Event<T>>, b: seq<Event<T>>, pending: seq<T>,
                         a': seq<Event<T>>, b': seq<Event<T>>, pending': seq<T>, t: nat, u: nat)
    requires Appended(a, b, pending, a', b', pending', t) && u != t
    ensures ItemsOf(a', u) == ItemsOf(a, u) && ItemsOf(b', u) == ItemsOf(b, u)
  {
    if a' != a {
      ItemsOfSnoc(a, Event(t, pending'[0]), u);
    } else if b' != b {
      ItemsOfSnoc(b, Event(t, pending[0]), u);
    }
  }

  // ---------- the specification ----------

  /** A bounded FIFO whose put and take happen at once. */
  datatype Fifo<T> = Fifo(items: seq<T>, capacity: nat, puts: seq<Event<T>>, takes: seq<Event<T>>)

  ghost predicate AtomicPut<T>(q: Fifo<T>, q': Fifo<T>, t: nat, x: T) {
    && |q.items| < q.capacity
    && q' == q.(items := q.items + [x], puts := q.puts + [Event(t, x)])
  }

  ghost predicate AtomicTake<T>(q: Fifo<T>, q': Fifo<T>, t: nat) {
    && q.items != []
    && q' == q.(items := q.items[1..], takes := q.takes + [Event(t, q.items[0])])
  }

  ghost predicate AtomicStep<T(!new)>(q: Fifo<T>, q': Fifo<T>, t: nat) {
    AtomicTake(q, q', t) || exists x :: AtomicPut(q, q', t, x)
  }

  /** Taken items followed by the items in the queue are the items put, in order. */
  ghost predicate InOrder<T>(q: Fifo<T>) {
    && |q.items| <= q.capacity
    && Items(q.puts) == Items(q.takes) + q.items
  }

  lemma AtomicKeepsOrder<T(!new)>(q: Fifo<T>, q': Fifo<T>, t: nat)
    requires InOrder(q) && (q' == q || AtomicStep(q, q', t))
    ensures InOrder(q')
  {
    if AtomicTake(q, q', t) {
      ItemsSnoc(q.takes, Event(t, q.items[0]));
      assert Items(q.takes) + q.items == Items(q.takes) + [q.items[0]] + q.items[1..];
    } else if q' != q {
      var x :| AtomicPut(q, q', t, x);
      ItemsSnoc(q.puts, Event(t, x));
      assert Items(q.takes) + q.items + [x] == Items(q.takes) + (q.items + [x]);
    }
  }

  /** Each producer's items leave in the order in which it put them: the puts behind the first
      |takes| items, restricted to one producer, are a prefix of that producer's puts. */
  lemma ProducerOrder<T>(q: Fifo<T>, t: nat)
    requires InOrder(q)
    ensures |q.takes| <= |q.puts|
    ensures Items(q.takes) == Items(q.puts[..|q.takes|])
    ensures ItemsOf(q.puts[..|q.takes|], t) <= ItemsOf(q.puts, t)
  {
    ItemsPrefix(q.puts, 0, t);
    ItemsPrefix(q.takes, 0, t);
    ItemsPrefix(q.puts, |q.takes|, t);
  }
}
