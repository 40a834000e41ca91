/** The LRU cache as a value, most recently used first, and what whole traces of calls keep. */
module Lru {
  import opened Options

  datatype Pair<K, V> = Pair(key: K, val: V)

  /** The position of key, or the size of the cache. */
  function Find<K(==), V>(cache: seq<Pair<K, V>>, key: K): (i: nat)
    ensures i <= |cache|
    ensures i < |cache| ==> cache[i].key == key
    ensures forall j :: 0 <= j < i ==> cache[j].key != key
  {
    if cache == [] || cache[0].key == key then 0 else 1 + Find(cache[1..], key)
  }

  predicate Cached<K(==), V>(cache: seq<Pair<K, V>>, key: K) {
    Find(cache, key) < |cache|
  }

  function MoveToFront<T>(s: seq<T>, i: nat): seq<T>
    requires i < |s|
  {
    [s[i]] + s[..i] + s[i + 1..]
  }

  lemma MoveMembers<T>(s: seq<T>, i: nat)
    requires i < |s|
    ensures |MoveToFront(s, i)| == |s|
    ensures forall j :: 0 <= j < |s| ==> MoveToFront(s, i)[j] == s[if j == 0 then i else if j <= i then j - 1 else j]
    ensures forall x :: x in MoveToFront(s, i) <==> x in s
  {
    var m := MoveToFront(s, i);
    forall x | x in s ensures x in m {
      var j :| 0 <= j < |s| && s[j] == x;
      assert m[if j == i then 0 else if j < i then j + 1 else j] == x;
    }
  }

  /** A hit moves the entry to the front; a miss changes nothing. */
  function Get<K(==), V>(cache: seq<Pair<K, V>>, key: K): seq<Pair<K, V>> {
    if Cached(cache, key) then MoveToFront(cache, Find(cache, key)) else cache
  }

  /** A known key is moved to the front with its new value; a new one evicts the last entry of a
      full cache. */
  function Set<K(==), V>(cache: seq<Pair<K, V>>, capacity: nat, key: K, val: V): seq<Pair<K, V>>
    requires capacity > 0
  {
    if Cached(cache, key) then MoveToFront(cache, Find(cache, key))[0 := Pair(key, val)]
    else [Pair(key, val)] + (if |cache| == capacity then cache[..|cache| - 1] else cache)
  }

  datatype Op<K, V> = DoGet(key: K) | DoSet(key: K, val: V)

  function Apply<K(==), V>(cache: seq<Pair<K, V>>, capacity: nat, op: Op<K, V>): seq<Pair<K, V>>
    requires capacity > 0
  {
    match op
    case DoGet(k) => Get(cache, k)
    case DoSet(k, v) => Set(cache, capacity, k, v)
  }

  function Run<K(==), V>(cache: seq<Pair<K, V>>, capacity: nat, ops: seq<Op<K, V>>): seq<Pair<K, V>>
    requires capacity > 0
  {
    if ops == [] then cache else Apply(Run(cache, capacity, ops[..|ops| - 1]), capacity, ops[|ops| - 1])
  }

  // ---------- every cache ----------

  ghost predicate Ok<K, V>(cache: seq<Pair<K, V>>, capacity: nat) {
    && |cache| <= capacity
    && forall i, j :: 0 <= i < j < |cache| ==> cache[i].key != cache[j].key
  }

  lemma ApplyOk<K, V>(cache: seq<Pair<K, V>>, capacity: nat, op: Op<K, V>)
    requires capacity > 0 && Ok(cache, capacity)
    ensures Ok(Apply(cache, capacity, op), capacity)
  {
    if Cached(cache, op.key) {
      MoveOk(cache, Find(cache, op.key));
    }
  }

  lemma MoveOk<K, V>(cache: seq<Pair<K, V>>, i: nat)
    requires i < |cache| && Ok(cache, |cache|)
    ensures Ok(MoveToFront(cache, i), |cache|)
    ensures forall p :: p in MoveToFront(cache, i) <==> p in cache
  {
    MoveMembers(cache, i);
  }

  lemma {:induction false} RunOk<K, V>(cache: seq<Pair<K, V>>, capacity: nat, ops: seq<Op<K, V>>)
    requires capacity > 0 && Ok(cache, capacity)
    ensures Ok(Run(cache, capacity, ops), capacity)
  {
    if ops != [] {
      RunOk(cache, capacity, ops[..|ops| - 1]);
      ApplyOk(Run(cache, capacity, ops[..|ops| - 1]), capacity, ops[|ops| - 1]);
    }
  }

  // ---------- the value of a hit ----------

  /** The value that the last Set of key gave it. */
  function LastSet<K(==), V>(ops: seq<Op<K, V>>, key: K): Option<V> {
    if ops == [] then None
    else
      var op := ops[|ops| - 1];
      if op.DoSet? && op.key == key then Some(op.val) else LastSet(ops[..|ops| - 1], key)
  }

  lemma ApplyMembers<K, V>(cache: seq<Pair<K, V>>, capacity: nat, op: Op<K, V>, p: Pair<K, V>)
    requires capacity > 0 && Ok(cache, capacity) && p in Apply(cache, capacity, op)
    ensures if op.DoSet? && op.key == p.key then op.val == p.val else p in cache
  {
    var next := Apply(cache, capacity, op);
    ApplyOk(cache, capacity, op);
    if Cached(cache, op.key) {
      MoveOk(cache, Find(cache, op.key));
    }
    if op.DoSet? {
      assert next[0] == Pair(op.key, op.val);
    }
  }

  /** In every trace, a cached key carries the value that was last Set for it. */
  lemma {:induction false} HitIsLastSet<K, V>(capacity: nat, ops: seq<Op<K, V>>, p: Pair<K, V>)
    requires capacity > 0 && p in Run([], capacity, ops)
    ensures LastSet(ops, p.key) == Some(p.val)
  {
    if ops != [] {
      var init, op := ops[..|ops| - 1], ops[|ops| - 1];
      RunOk<K, V>([], capacity, init);
      ApplyMembers(Run([], capacity, init), capacity, op, p);
      if !(op.DoSet? && op.key == p.key) {
        HitIsLastSet(capacity, init, p);
      }
    }
  }

  // ---------- retention ----------

  function KeysOf<K(==), V>(cache: seq<Pair<K, V>>): set<K> {
    if cache == [] then {} else KeysOf(cache[..|cache| - 1]) + {cache[|cache| - 1].key}
  }

  lemma {:induction false} KeysOfIs<K, V>(cache: seq<Pair<K, V>>, k: K)
    ensures k in KeysOf(cache) <==> exists i :: 0 <= i < |cache| && cache[i].key == k
  {
    if cache != [] { KeysOfIs(cache[..|cache| - 1], k); }
  }

  lemma {:induction false} KeysOfSize<K, V>(cache: seq<Pair<K, V>>)
    requires Ok(cache, |cache|)
    ensures |KeysOf(cache)| == |cache|
  {
    if cache != [] {
      KeysOfIs(cache[..|cache| - 1], cache[|cache| - 1].key);
      KeysOfSize(cache[..|cache| - 1]);
    }
  }

  /** The key that a call sets or hits, if any. */
  function Touch<K(==), V>(cache: seq<Pair<K, V>>, op: Op<K, V>): set<K> {
    if op.DoSet? || Cached(cache, op.key) then {op.key} else {}
  }

  /** The keys that a trace sets or hits. */
  function Touched<K(==), V>(cache: seq<Pair<K, V>>, capacity: nat, ops: seq<Op<K, V>>): set<K>
    requires capacity > 0
  {
    if ops == [] then {}
    else
      var init, op := ops[..|ops| - 1], ops[|ops| - 1];
      Touched(cache, capacity, init) + Touch(Run(cache, capacity, init), op)
  }

  /** Every key ahead of k has been touched. */
  ghost predicate AheadTouched<K, V>(cache: seq<Pair<K, V>>, k: K, touched: set<K>) {
    Cached(cache, k) && forall j :: 0 <= j < Find(cache, k) ==> cache[j].key in touched
  }

  lemma HitKeeps<K, V>(cache: seq<Pair<K, V>>, i: nat, k: K, touched: set<K>)
    requires Ok(cache, |cache|) && AheadTouched(cache, k, touched) && i < |cache|
    ensures AheadTouched(MoveToFront(cache, i), k, touched + (if cache[i].key == k then {} else {cache[i].key}))
  {
    var next, at := MoveToFront(cache, i), Find(cache, k);
    MoveMembers(cache, i);
    assert next[if i == at then 0 else if at < i then at + 1 else at].key == k;
  }

  lemma SetAfterHit<K, V>(cache: seq<Pair<K, V>>, val: V, k: K, touched: set<K>)
    requires cache != [] && AheadTouched(cache, k, touched)
    ensures AheadTouched(cache[0 := Pair(cache[0].key, val)], k, touched)
  {
    var next := cache[0 := Pair(cache[0].key, val)];
    assert forall j :: 0 <= j < |next| ==> next[j].key == cache[j].key;
    assert next[Find(cache, k)].key == k;
  }

  lemma MissKeeps<K, V>(cache: seq<Pair<K, V>>, capacity: nat, p: Pair<K, V>, k: K, touched: set<K>)
    requires capacity > 0 && Ok(cache, capacity) && AheadTouched(cache, k, touched) && !Cached(cache, p.key)
    requires |touched + {p.key}| < capacity
    ensures AheadTouched([p] + (if |cache| == capacity then cache[..|cache| - 1] else cache), k, touched + {p.key})
  {
    var next := [p] + (if |cache| == capacity then cache[..|cache| - 1] else cache);
    var at := Find(cache, k);
    RankWithin(cache, at, touched, p.key);
    assert next[at + 1].key == k;
  }

  lemma StepKeeps<K, V>(cache: seq<Pair<K, V>>, capacity: nat, op: Op<K, V>, k: K, touched: set<K>)
    requires capacity > 0 && Ok(cache, capacity) && AheadTouched(cache, k, touched)
    requires |touched + (Touch(cache, op) - {k})| < capacity
    ensures AheadTouched(Apply(cache, capacity, op), k, touched + (Touch(cache, op) - {k}))
  {
    assert Touch(cache, op) - {k} == if (op.DoSet? || Cached(cache, op.key)) && op.key != k then {op.key} else {};
    if Cached(cache, op.key) {
      var i := Find(cache, op.key);
      HitKeeps(cache, i, k, touched);
      if op.DoSet? {
        SetAfterHit(MoveToFront(cache, i), op.val, k, touched + (if op.key == k then {} else {op.key}));
      }
    } else if op.DoSet? {
      MissKeeps(cache, capacity, Pair(op.key, op.val), k, touched);
    }
  }

  /** The keys ahead of position at, with one that is not cached, are at + 1 touched keys. */
  lemma RankWithin<K, V>(cache: seq<Pair<K, V>>, at: nat, touched: set<K>, key: K)
    requires Ok(cache, |cache|) && at < |cache| && !Cached(cache, key)
    requires forall j :: 0 <= j < at ==> cache[j].key in touched
    ensures at + 1 <= |touched + {key}|
  {
    KeysOfSize(cache[..at]);
    KeysOfIs(cache[..at], key);
    var ahead := KeysOf(cache[..at]) + {key};
    forall x | x in ahead ensures x in touched + {key} {
      if x != key {
        KeysOfIs(cache[..at], x);
        var j :| 0 <= j < |cache[..at]| && cache[..at][j].key == x;
        assert cache[j].key == x;
      }
    }
    SubsetSize(ahead, touched + {key});
  }

  lemma {:induction false} SubsetSize<T>(a: set<T>, b: set<T>)
    requires a <= b
    ensures |a| <= |b|
  {
    assert b == a + (b - a);
  }

  /** A key at the front stays cached while fewer than capacity other keys are touched. */
  lemma {:induction false} Retained<K, V>(cache: seq<Pair<K, V>>, capacity: nat, ops: seq<Op<K, V>>, k: K)
    requires capacity > 0 && Ok(cache, capacity) && cache != [] && cache[0].key == k
    requires |Touched(cache, capacity, ops) - {k}| < capacity
    ensures AheadTouched(Run(cache, capacity, ops), k, Touched(cache, capacity, ops) - {k})
    ensures Cached(Run(cache, capacity, ops), k)
  {
    if ops != [] {
      var init, op := ops[..|ops| - 1], ops[|ops| - 1];
      var mid, touched := Run(cache, capacity, init), Touched(cache, capacity, init);
      TouchMore(touched, Touch(mid, op), k);
      Retained(cache, capacity, init, k);
      RunOk(cache, capacity, init);
      StepKeeps(mid, capacity, op, k, touched - {k});
    }
  }

  lemma TouchMore<K>(touched: set<K>, more: set<K>, k: K)
    ensures touched + more - {k} == (touched - {k}) + (more - {k})
    ensures |touched - {k}| <= |touched + more - {k}|
  {
    SubsetSize(touched - {k}, touched + more - {k});
  }

  /** While k is cached, every touched key is ahead of it. */
  ghost predicate Overtaken<K, V>(cache: seq<Pair<K, V>>, k: K, touched: set<K>) {
    Cached(cache, k) ==> forall x :: x in touched ==> Find(cache, x) < Find(cache, k)
  }

  lemma FindIs<K, V>(cache: seq<Pair<K, V>>, key: K, i: nat)
    requires Ok(cache, |cache|) && i < |cache| && cache[i].key == key
    ensures Find(cache, key) == i
  {
  }

  lemma SetFront<K, V>(cache: seq<Pair<K, V>>, val: V, x: K)
    requires cache != []
    ensures Find(cache[0 := Pair(cache[0].key, val)], x) == Find(cache, x)
  {
    assert cache[0 := Pair(cache[0].key, val)][1..] == cache[1..];
  }

  lemma FindMovedTo<K, V>(cache: seq<Pair<K, V>>, i: nat, x: K)
    requires Ok(cache, |cache|) && i < |cache| && Cached(cache, x)
    ensures var at := Find(cache, x);
            Find(MoveToFront(cache, i), x) == if at == i then 0 else if at < i then at + 1 else at
  {
    var next, at := MoveToFront(cache, i), Find(cache, x);
    var to := if at == i then 0 else if at < i then at + 1 else at;
    MoveMembers(cache, i);
    MoveOk(cache, i);
    assert next[to] == cache[at];
    FindIs(next, x, to);
  }

  lemma MovedMisses<K, V>(cache: seq<Pair<K, V>>, i: nat, x: K)
    requires i < |cache| && !Cached(cache, x)
    ensures Find(MoveToFront(cache, i), x) == |cache|
  {
    MoveMembers(cache, i);
  }

  /** Moving an entry to the front shifts those that were ahead of it back by one. */
  lemma FindMoved<K, V>(cache: seq<Pair<K, V>>, i: nat, x: K)
    requires Ok(cache, |cache|) && i < |cache|
    ensures Find(MoveToFront(cache, i), x)
         == (if x == cache[i].key then 0 else if Find(cache, x) < i then Find(cache, x) + 1 else Find(cache, x))
  {
    if Cached(cache, x) {
      FindMovedTo(cache, i, x);
    } else {
      MovedMisses(cache, i, x);
    }
  }

  lemma HitOvertakes<K, V>(cache: seq<Pair<K, V>>, i: nat, k: K, touched: set<K>)
    requires Ok(cache, |cache|) && i < |cache| && cache[i].key != k && Overtaken(cache, k, touched)
    ensures Overtaken(MoveToFront(cache, i), k, touched + {cache[i].key})
  {
    FindMoved(cache, i, k);
    MoveMembers(cache, i);
    forall x | x in touched + {cache[i].key} && Cached(cache, k)
      ensures Find(MoveToFront(cache, i), x) < Find(MoveToFront(cache, i), k)
    {
      FindMoved(cache, i, x);
    }
  }

  lemma {:induction false} FindTake<K, V>(cache: seq<Pair<K, V>>, n: nat, x: K)
    requires n <= |cache|
    ensures Find(cache[..n], x) == if Find(cache, x) < n then Find(cache, x) else n
  {
    if n > 0 && cache[0].key != x {
      FindTake(cache[1..], n - 1, x);
      assert cache[..n][1..] == cache[1..][..n - 1];
    }
  }

  lemma MissOvertakes<K, V>(cache: seq<Pair<K, V>>, kept: nat, p: Pair<K, V>, k: K, touched: set<K>)
    requires kept <= |cache| && p.key != k && Overtaken(cache, k, touched)
    ensures Overtaken([p] + cache[..kept], k, touched + {p.key})
  {
    var next := [p] + cache[..kept];
    assert next[1..] == cache[..kept];
    FindTake(cache, kept, k);
    forall x | x in touched + {p.key} && Cached(next, k) ensures Find(next, x) < Find(next, k) {
      FindTake(cache, kept, x);
    }
  }

  /** A call that does not touch k. */
  lemma StepOvertakes<K, V>(cache: seq<Pair<K, V>>, capacity: nat, op: Op<K, V>, k: K, touched: set<K>)
    requires capacity > 0 && Ok(cache, capacity) && Overtaken(cache, k, touched)
    requires k !in Touch(cache, op)
    ensures Overtaken(Apply(cache, capacity, op), k, touched + Touch(cache, op))
  {
    if Cached(cache, op.key) {
      var i := Find(cache, op.key);
      HitOvertakes(cache, i, k, touched);
      if op.DoSet? {
        var moved := MoveToFront(cache, i);
        forall x ensures Find(moved[0 := Pair(op.key, op.val)], x) == Find(moved, x) {
          SetFront(moved, op.val, x);
        }
        MoveMembers(cache, i);
      }
    } else if op.DoSet? {
      var kept := if |cache| == capacity then |cache| - 1 else |cache|;
      MissOvertakes(cache, kept, Pair(op.key, op.val), k, touched);
      assert cache[..|cache|] == cache;
    }
  }

  lemma {:induction false} RunOvertakes<K, V>(cache: seq<Pair<K, V>>, capacity: nat, ops: seq<Op<K, V>>, k: K)
    requires capacity > 0 && Ok(cache, capacity) && k !in Touched(cache, capacity, ops)
    ensures Overtaken(Run(cache, capacity, ops), k, Touched(cache, capacity, ops))
  {
    if ops != [] {
      var init, op := ops[..|ops| - 1], ops[|ops| - 1];
      RunOvertakes(cache, capacity, init, k);
      RunOk(cache, capacity, init);
      StepOvertakes(Run(cache, capacity, init), capacity, op, k, Touched(cache, capacity, init));
    }
  }

  /** Touched keys ahead of a cached one are fewer than the entries. */
  lemma AheadFewer<K, V>(cache: seq<Pair<K, V>>, k: K, touched: set<K>)
    requires Ok(cache, |cache|) && Cached(cache, k) && Overtaken(cache, k, touched)
    ensures |touched| < |cache|
  {
    var at := Find(cache, k);
    KeysOfSize(cache[..at]);
    forall x | x in touched ensures x in KeysOf(cache[..at]) {
      assert cache[..at][Find(cache, x)].key == x;
      KeysOfIs(cache[..at], x);
    }
    SubsetSize(touched, KeysOf(cache[..at]));
  }

  /** After a call that sets or hits a key, the key stays cached while fewer than capacity other keys are
      set or hit; and as long as it is not itself set or hit again, exactly that long. */
  lemma TouchedStays<K, V>(cache: seq<Pair<K, V>>, capacity: nat, op: Op<K, V>, ops: seq<Op<K, V>>)
    requires capacity > 0 && Ok(cache, capacity)
    requires op.DoSet? || Cached(cache, op.key)
    ensures var start := Apply(cache, capacity, op);
            |Touched(start, capacity, ops) - {op.key}| < capacity ==> Cached(Run(start, capacity, ops), op.key)
    ensures var start := Apply(cache, capacity, op);
            op.key !in Touched(start, capacity, ops) ==>
              (Cached(Run(start, capacity, ops), op.key) <==> |Touched(start, capacity, ops)| < capacity)
  {
    ApplyOk(cache, capacity, op);
    var start := Apply(cache, capacity, op);
    var touched := Touched(start, capacity, ops);
    if |touched - {op.key}| < capacity {
      Retained(start, capacity, ops, op.key);
    }
    if op.key !in touched {
      assert touched - {op.key} == touched;
      RunOvertakes(start, capacity, ops, op.key);
      RunOk(start, capacity, ops);
      if Cached(Run(start, capacity, ops), op.key) {
        AheadFewer(Run(start, capacity, ops), op.key, touched);
      }
    }
  }

  // ---------- inclusion ----------

  /** s is a subsequence of b, values included. */
  predicate Within<K(==), V(==)>(s: seq<Pair<K, V>>, b: seq<Pair<K, V>>) {
    if s == [] then true
    else if b == [] then false
    else if s[0] == b[0] then Within(s[1..], b[1..])
    else Within(s, b[1..])
  }

  function Without<K(==), V>(s: seq<Pair<K, V>>, key: K): seq<Pair<K, V>> {
    if s == [] then []
    else if s[0].key == key then Without(s[1..], key)
    else [s[0]] + Without(s[1..], key)
  }

  lemma {:induction false} WithinSkip<K, V>(s: seq<Pair<K, V>>, b: seq<Pair<K, V>>)
    requires s != [] && b != [] && Within(s, b)
    ensures Within(s[1..], b[1..])
  {
    if s[0] != b[0] {
      WithinSkip(s, b[1..]);
      WithinLonger(s[1..], b[1..]);
    }
  }

  lemma {:induction false} WithinLonger<K, V>(s: seq<Pair<K, V>>, b: seq<Pair<K, V>>)
    requires b != [] && Within(s, b[1..])
    ensures Within(s, b)
  {
    if s != [] && s[0] == b[0] {
      WithinSkip(s, b[1..]);
      WithinLonger(s[1..], b[1..]);
    }
  }

  lemma {:induction false} WithinSame<K, V>(s: seq<Pair<K, V>>)
    ensures Within(s, s)
  {
    if s != [] { WithinSame(s[1..]); }
  }

  lemma {:induction false} WithinWithout<K, V>(s: seq<Pair<K, V>>, b: seq<Pair<K, V>>, key: K)
    requires Within(s, b)
    ensures Within(Without(s, key), Without(b, key))
  {
    if s != [] {
      if s[0] == b[0] {
        WithinWithout(s[1..], b[1..], key);
        assert s[0].key != key ==> Without(s, key)[1..] == Without(s[1..], key);
        assert s[0].key != key ==> Without(b, key)[1..] == Without(b[1..], key);
      } else {
        WithinWithout(s, b[1..], key);
        if b[0].key != key {
          assert Without(b, key)[1..] == Without(b[1..], key);
          WithinLonger(Without(s, key), Without(b, key));
        }
      }
    }
  }

  lemma {:induction false} WithinDropLasts<K, V>(s: seq<Pair<K, V>>, b: seq<Pair<K, V>>)
    requires s != [] && Within(s, b)
    ensures b != [] && Within(s[..|s| - 1], b[..|b| - 1])
  {
    if s[0] == b[0] {
      if |s| > 1 {
        WithinDropLasts(s[1..], b[1..]);
        assert s[..|s| - 1][1..] == s[1..][..|s| - 2] && b[..|b| - 1][1..] == b[1..][..|b| - 2];
      }
    } else {
      WithinDropLasts(s, b[1..]);
      assert b[..|b| - 1][1..] == b[1..][..|b| - 2];
      WithinLonger(s[..|s| - 1], b[..|b| - 1]);
    }
  }

  lemma {:induction false} WithinDropLast<K, V>(s: seq<Pair<K, V>>, b: seq<Pair<K, V>>)
    requires s != [] && Within(s, b)
    ensures Within(s[..|s| - 1], b)
    decreases |b|
  {
    if s[0] == b[0] {
      if |s| > 1 {
        WithinDropLast(s[1..], b[1..]);
        assert s[..|s| - 1][1..] == s[1..][..|s| - 2];
      }
    } else {
      WithinDropLast(s, b[1..]);
      WithinLonger(s[..|s| - 1], b);
    }
  }

  lemma {:induction false} WithinMembers<K, V>(s: seq<Pair<K, V>>, b: seq<Pair<K, V>>, p: Pair<K, V>)
    requires Within(s, b) && p in s
    ensures p in b
  {
    if s[0] == b[0] {
      if p != s[0] { WithinMembers(s[1..], b[1..], p); }
    } else {
      WithinMembers(s, b[1..], p);
    }
  }

  lemma {:induction false} WithoutAbsent<K, V>(s: seq<Pair<K, V>>, key: K)
    requires !Cached(s, key)
    ensures Without(s, key) == s
  {
    if s != [] { WithoutAbsent(s[1..], key); }
  }

  /** Moving an entry to the front leaves the others in order. */
  lemma {:induction false} MoveIsWithout<K, V>(s: seq<Pair<K, V>>, key: K)
    requires Cached(s, key) && Ok(s, |s|)
    ensures s[..Find(s, key)] + s[Find(s, key) + 1..] == Without(s, key)
  {
    if s[0].key == key {
      assert forall j :: 0 <= j < |s[1..]| ==> s[1..][j].key != key;
      WithoutAbsent(s[1..], key);
    } else {
      MoveIsWithout(s[1..], key);
      var n := Find(s[1..], key);
      assert s[..n + 1] == [s[0]] + s[1..][..n];
    }
  }

  /** Distinct keys: the entry that a key finds is the only one with that key. */
  lemma FindsMember<K, V>(s: seq<Pair<K, V>>, p: Pair<K, V>)
    requires Ok(s, |s|) && p in s
    ensures Cached(s, p.key) && s[Find(s, p.key)] == p
  {
  }

  /** The two caches of one trace: the small one lies within the large one, and is the same cache
      until it is full. */
  ghost predicate Included<K, V>(s: seq<Pair<K, V>>, c: nat, b: seq<Pair<K, V>>, d: nat) {
    Ok(s, c) && Ok(b, d) && Within(s, b) && (|s| < c ==> s == b)
  }

  lemma HitBoth<K, V>(s: seq<Pair<K, V>>, b: seq<Pair<K, V>>, key: K)
    requires Ok(s, |s|) && Ok(b, |b|) && Within(s, b) && Cached(s, key)
    ensures Cached(b, key) && b[Find(b, key)] == s[Find(s, key)]
  {
    WithinMembers(s, b, s[Find(s, key)]);
    FindsMember(b, s[Find(s, key)]);
  }

  /** Get as head and tail: a hit puts its entry ahead of the others. */
  lemma GetTail<K, V>(s: seq<Pair<K, V>>, key: K)
    requires Ok(s, |s|) && Cached(s, key)
    ensures |Get(s, key)| == |s| && Get(s, key)[0] == s[Find(s, key)]
    ensures Get(s, key)[1..] == Without(s, key)
  {
    MoveIsWithout(s, key);
    MoveSplit(s, Find(s, key));
  }

  lemma WithinCons<K, V>(s: seq<Pair<K, V>>, b: seq<Pair<K, V>>)
    requires s != [] && b != [] && s[0] == b[0] && Within(s[1..], b[1..])
    ensures Within(s, b)
  {
  }

  lemma GetHitsBoth<K, V>(s: seq<Pair<K, V>>, b: seq<Pair<K, V>>, key: K)
    requires Ok(s, |s|) && Ok(b, |b|) && Within(s, b) && Cached(s, key)
    ensures Within(Get(s, key), Get(b, key))
  {
    HitBoth(s, b, key);
    GetTail(s, key);
    GetTail(b, key);
    WithinWithout(s, b, key);
    WithinCons(Get(s, key), Get(b, key));
  }

  lemma GetHitsLarge<K, V>(s: seq<Pair<K, V>>, b: seq<Pair<K, V>>, key: K)
    requires Ok(b, |b|) && Within(s, b) && !Cached(s, key) && Cached(b, key)
    ensures Within(s, Get(b, key))
  {
    GetTail(b, key);
    WithoutAbsent(s, key);
    WithinWithout(s, b, key);
    WithinLonger(s, Get(b, key));
  }

  lemma GetIncluded<K, V>(s: seq<Pair<K, V>>, c: nat, b: seq<Pair<K, V>>, d: nat, key: K)
    requires 0 < c <= d && Included(s, c, b, d)
    ensures Within(Get(s, key), Get(b, key)) && (|Get(s, key)| < c ==> Get(s, key) == Get(b, key))
  {
    if Cached(s, key) {
      GetHitsBoth(s, b, key);
      GetTail(s, key);
    } else if Cached(b, key) {
      GetHitsLarge(s, b, key);
    }
  }

  lemma MoveSplit<K, V>(s: seq<Pair<K, V>>, i: nat)
    requires i < |s|
    ensures MoveToFront(s, i)[0] == s[i] && MoveToFront(s, i)[1..] == s[..i] + s[i + 1..]
    ensures |MoveToFront(s, i)| == |s|
  {
  }

  lemma SetIncluded<K, V>(s: seq<Pair<K, V>>, c: nat, b: seq<Pair<K, V>>, d: nat, key: K, val: V)
    requires 0 < c <= d && Included(s, c, b, d)
    ensures Within(Set(s, c, key, val), Set(b, d, key, val))
    ensures |Set(s, c, key, val)| < c ==> Set(s, c, key, val) == Set(b, d, key, val)
  {
    var s', b' := Set(s, c, key, val), Set(b, d, key, val);
    SetTail(s, c, key, val);
    SetTail(b, d, key, val);
    if Cached(s, key) {
      HitBoth(s, b, key);
      WithinWithout(s, b, key);
    } else if |s| < c {
      WithinSame(s);
    } else if Cached(b, key) {
      WithoutAbsent(s, key);
      WithinWithout(s, b, key);
      WithinDropLast(s, Without(b, key));
    } else if |b| == d {
      WithinDropLasts(s, b);
    } else {
      WithinDropLast(s, b);
    }
    assert Within(s'[1..], b'[1..]);
  }

  lemma SetTail<K, V>(s: seq<Pair<K, V>>, c: nat, key: K, val: V)
    requires 0 < c && Ok(s, c)
    ensures Set(s, c, key, val) != [] && Set(s, c, key, val)[0] == Pair(key, val)
    ensures Set(s, c, key, val)[1..]
         == if Cached(s, key) then Without(s, key) else if |s| == c then s[..|s| - 1] else s
  {
    if Cached(s, key) {
      MoveIsWithout(s, key);
      MoveSplit(s, Find(s, key));
    }
  }

  /** For the same trace and capacities 0 < c <= d, the small cache always lies within the large one. */
  lemma {:induction false} RunIncluded<K, V>(c: nat, d: nat, ops: seq<Op<K, V>>)
    requires 0 < c <= d
    ensures Included(Run([], c, ops), c, Run([], d, ops), d)
  {
    if ops != [] {
      var init, op := ops[..|ops| - 1], ops[|ops| - 1];
      RunIncluded(c, d, init);
      var s, b := Run([], c, init), Run([], d, init);
      ApplyOk(s, c, op);
      ApplyOk(b, d, op);
      match op
      case DoGet(k) => GetIncluded(s, c, b, d, k);
      case DoSet(k, v) => SetIncluded(s, c, b, d, k, v);
    }
  }

  /** Every hit of the small cache is a hit of the large one, with the same value. */
  lemma HitsIncluded<K, V>(c: nat, d: nat, ops: seq<Op<K, V>>, key: K)
    requires 0 < c <= d && Cached(Run([], c, ops), key)
    ensures Cached(Run([], d, ops), key)
    ensures Run([], d, ops)[Find(Run([], d, ops), key)] == Run([], c, ops)[Find(Run([], c, ops), key)]
  {
    RunIncluded(c, d, ops);
    HitBoth(Run([], c, ops), Run([], d, ops), key);
  }
}
