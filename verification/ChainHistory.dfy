/** Whole histories of the chained table, and walks over a snapshot. */
module ChainHistory {
  import opened Bits
  import opened StableSort
  import opened Chains
  import opened ChainHash

  /** The calls of a history. EraseNth erases through an iterator that a walk has brought to the entry with
      the key that n others precede. */
  datatype Op<V> =
    | Insert(key: int, val: V) | FindOrInsert(key: int, val: V)
    | Erase(key: int) | EraseNth(key: int, n: nat) | Clear
    | Snap | Sort

  /** What one call does to the stack of values under key. */
  function StackStep<V>(op: Op<V>, s: seq<V>, key: int): seq<V> {
    match op
    case Insert(k, v) => if k == key then [v] + s else s
    case FindOrInsert(k, v) => if k == key && s == [] then [v] else s
    case Erase(k) => if k == key && s != [] then s[1..] else s
    case EraseNth(k, n) => if k == key && n < |s| then s[..n] + s[n + 1..] else s
    case Clear => []
    case Snap => s
    case Sort => s
  }

  /** The values under key after a history. */
  function StackRun<V>(ops: seq<Op<V>>, key: int): seq<V> {
    if ops == [] then [] else StackStep(ops[|ops| - 1], StackRun(ops[..|ops| - 1], key), key)
  }

  /** s carries the values vs. */
  ghost predicate Carries<V>(s: seq<Entry<V>>, vs: seq<V>)
    reads (set e | e in s)`val
  {
    |s| == |vs| && forall j {:trigger s[j].val} :: 0 <= j < |s| ==> s[j].val == vs[j]
  }

  /** Every stack of the table carries the values that the history left under its key. */
  ghost predicate Follows<V>(t: ChainHash<V>, ops: seq<Op<V>>)
    reads *
  {
    t.Valid() && forall k :: Carries(t.Stack(k), StackRun(ops, k))
  }

  lemma StackRunSnoc<V>(ops: seq<Op<V>>, op: Op<V>, k: int)
    ensures StackRun(ops + [op], k) == StackStep(op, StackRun(ops, k), k)
  {
    assert (ops + [op])[..|ops|] == ops;
  }

  // ---------- snapshots in a history ----------

  /** A snapshot has been asked for since the last clear. */
  predicate Snapped<V>(ops: seq<Op<V>>) {
    ops != [] &&
    match ops[|ops| - 1]
    case Clear => false
    case Snap => true
    case _ => Snapped(ops[..|ops| - 1])
  }

  /** Nothing has been erased since then, so that a snapshot reaches no freed entry. */
  predicate Sound<V>(ops: seq<Op<V>>) {
    ops == [] ||
    match ops[|ops| - 1]
    case Clear => true
    case Erase(_) => !Snapped(ops[..|ops| - 1])
    case EraseNth(_, _) => !Snapped(ops[..|ops| - 1])
    case _ => Sound(ops[..|ops| - 1])
  }

  /** The call goes over no freed entry: a sort only over a sound snapshot, and a walk that ends in an erase
      only over the chains. */
  predicate Fits<V>(ops: seq<Op<V>>, op: Op<V>) {
    && (op.Sort? ==> Sound(ops) && |ops| <= SIZE_T)
    && (op.EraseNth? ==> !Snapped(ops))
  }

  /** Snapped: some snap has no clear behind it. */
  lemma {:induction false} SnappedIs<V>(ops: seq<Op<V>>)
    ensures Snapped(ops) <==>
              exists i :: 0 <= i < |ops| && ops[i].Snap? && forall j :: i < j < |ops| ==> !ops[j].Clear?
  {
    if ops != [] {
      var init, n := ops[..|ops| - 1], |ops| - 1;
      SnappedIs(init);
      if Snapped(init) && !ops[n].Clear? {
        var i :| 0 <= i < n && init[i].Snap? && forall j :: i < j < n ==> !init[j].Clear?;
        assert ops[i].Snap? && forall j :: i < j < |ops| ==> !ops[j].Clear?;
      }
      if i :| 0 <= i < n && ops[i].Snap? && forall j :: i < j < |ops| ==> !ops[j].Clear? {
        assert init[i].Snap? && forall j :: i < j < n ==> !init[j].Clear?;
      }
    }
  }

  /** Call i erases under a snapshot, and no clear follows. */
  ghost predicate LooseAt<V>(ops: seq<Op<V>>, i: nat) {
    && i < |ops| && (ops[i].Erase? || ops[i].EraseNth?) && Snapped(ops[..i])
    && forall j :: i < j < |ops| ==> !ops[j].Clear?
  }

  lemma LooseSnoc<V>(ops: seq<Op<V>>, i: nat)
    requires i < |ops| - 1
    ensures LooseAt(ops, i) <==> LooseAt(ops[..|ops| - 1], i) && !ops[|ops| - 1].Clear?
    ensures LooseAt(ops, i) ==> Snapped(ops[..|ops| - 1])
  {
    var n := |ops| - 1;
    var init := ops[..n];
    assert init[..i] == ops[..i] && forall j :: 0 <= j < n ==> init[j] == ops[j];
    if LooseAt(ops, i) {
      StaysSnapped(ops, i);
    }
  }

  /** Unsound: some erase under a snapshot has no clear behind it. */
  lemma {:induction false} SoundIs<V>(ops: seq<Op<V>>)
    ensures !Sound(ops) <==> exists i: nat :: LooseAt(ops, i)
  {
    if ops != [] {
      var n := |ops| - 1;
      var init := ops[..n];
      SoundIs(init);
      if !Sound(init) && !ops[n].Clear? {
        var i: nat :| LooseAt(init, i);
        LooseSnoc(ops, i);
      }
      if i: nat :| LooseAt(ops, i) {
        if i < n {
          LooseSnoc(ops, i);
        }
      } else {
        assert !LooseAt(ops, n);
      }
    }
  }

  lemma {:induction false} StaysSnapped<V>(ops: seq<Op<V>>, i: nat)
    requires i < |ops| && Snapped(ops[..i]) && forall j :: i <= j < |ops| - 1 ==> !ops[j].Clear?
    ensures Snapped(ops[..|ops| - 1])
    decreases |ops|
  {
    if i < |ops| - 1 {
      var init := ops[..|ops| - 1];
      assert init[..i] == ops[..i];
      StaysSnapped(init, i);
    }
  }

  lemma {:induction false} UnsnappedSound<V>(ops: seq<Op<V>>)
    ensures !Snapped(ops) ==> Sound(ops)
  {
    if ops != [] { UnsnappedSound(ops[..|ops| - 1]); }
  }

  /** The table after a history: its stacks, and its snapshot as long as that is sound. */
  ghost predicate Tracks<V>(t: ChainHash<V>, ops: seq<Op<V>>)
    reads *
  {
    && Follows(t, ops) && |t.Entries()| <= |ops|
    && (Sound(ops) ==> t.SnapValid())
    && (!Snapped(ops) ==> t.snap == null)
  }

  lemma SnocFlags<V>(ops: seq<Op<V>>, op: Op<V>)
    ensures Snapped(ops + [op]) == (op.Snap? || (!op.Clear? && Snapped(ops)))
    ensures Sound(ops + [op]) ==
            (op.Clear? || (if op.Erase? || op.EraseNth? then !Snapped(ops) else Sound(ops)))
  {
    assert (ops + [op])[..|ops|] == ops;
  }

  lemma PushCarries<V>(s: seq<Entry<V>>, vs: seq<V>, e: Entry<V>)
    requires Carries(s, vs)
    ensures Carries([e] + s, [e.val] + vs) && [] + s == s
  {
    var u := [e] + s;
    forall j | 0 <= j < |u| ensures u[j].val == ([e.val] + vs)[j] {
      assert j > 0 ==> u[j] == s[j - 1] && s[j - 1].val == vs[j - 1];
    }
  }

  lemma RemoveCarries<V>(s: seq<Entry<V>>, vs: seq<V>, n: nat)
    requires Carries(s, vs)
    ensures n < |s| ==> Carries(Remove(s, n), vs[..n] + vs[n + 1..])
  {
    if n < |s| {
      var u := Remove(s, n);
      forall j | 0 <= j < |u| ensures u[j].val == (vs[..n] + vs[n + 1..])[j] {
        var i := if j < n then j else j + 1;
        assert u[j] == s[i] && s[i].val == vs[i];
      }
    }
  }

  lemma OneCarries<V>(e: Entry<V>)
    ensures Carries([e], [e.val])
  {
  }

  lemma PopCarries<V>(s: seq<Entry<V>>, vs: seq<V>)
    requires Carries(s, vs)
    ensures s != [] ==> Carries(s[1..], vs[1..])
  {
    RemoveCarries(s, vs, 0);
    if s != [] {
      assert Remove(s, 0) == s[1..] && vs[..0] + vs[1..] == vs[1..];
    }
  }

  method InsertFollows<V>(t: ChainHash<V>, key: int, val: V, ghost ops: seq<Op<V>>)
    requires Follows(t, ops)
    modifies t.tbl, t`chains
    ensures Follows(t, ops + [Op.Insert(key, val)])
    ensures |t.Entries()| <= |old(t.Entries())| + 1 && fresh(t.Entries() - old(t.Entries()))
    ensures old(t.SnapValid()) ==> t.SnapValid()
  {
    var it := t.Insert(key, val);
    GrownByOne(old(t.Entries()), t.Entries(), it.entry);
    forall k ensures Carries(t.Stack(k), StackRun(ops + [Op.Insert(key, val)], k)) {
      StackRunSnoc(ops, Op.Insert(key, val), k);
      assert old(Carries(t.Stack(k), StackRun(ops, k)));
      assert Carries(old(t.Stack(k)), StackRun(ops, k));
      PushCarries(old(t.Stack(k)), StackRun(ops, k), it.entry);
    }
  }

  method ApplyInsert<V>(t: ChainHash<V>, key: int, val: V, ghost ops: seq<Op<V>>)
    requires Tracks(t, ops)
    modifies t.tbl, t`chains
    ensures Tracks(t, ops + [Op.Insert(key, val)]) && fresh(t.Entries() - old(t.Entries()))
  {
    SnocFlags(ops, Op.Insert(key, val));
    InsertFollows(t, key, val, ops);
  }

  lemma GrownByOne<T>(before: set<T>, after: set<T>, x: T)
    requires after <= before + {x}
    ensures |after| <= |before| + 1
  {
    SubsetSize(after, before + {x});
  }

  method FindOrInsertFollows<V>(t: ChainHash<V>, key: int, val: V, ghost ops: seq<Op<V>>)
    requires Follows(t, ops)
    modifies t.tbl, t`chains, t.Entries()`next
    ensures Follows(t, ops + [Op.FindOrInsert(key, val)])
    ensures |t.Entries()| <= |old(t.Entries())| + 1 && fresh(t.Entries() - old(t.Entries()))
    ensures old(t.SnapValid()) ==> t.SnapValid()
  {
    var it := t.FindOrInsert(key, val);
    GrownByOne(old(t.Entries()), t.Entries(), it.entry);
    forall k ensures Carries(t.Stack(k), StackRun(ops + [Op.FindOrInsert(key, val)], k)) {
      StackRunSnoc(ops, Op.FindOrInsert(key, val), k);
      assert old(Carries(t.Stack(k), StackRun(ops, k)));
      assert Carries(old(t.Stack(k)), StackRun(ops, k));
      if k == key && old(t.Stack(k)) == [] {
        assert t.Stack(k) == [it.entry] && StackStep(Op.FindOrInsert(key, val), StackRun(ops, k), k) == [val];
        OneCarries(it.entry);
      } else {
        assert t.Stack(k) == old(t.Stack(k));
      }
    }
  }

  method ApplyFindOrInsert<V>(t: ChainHash<V>, key: int, val: V, ghost ops: seq<Op<V>>)
    requires Tracks(t, ops)
    modifies t.tbl, t`chains, t.Entries()`next
    ensures Tracks(t, ops + [Op.FindOrInsert(key, val)]) && fresh(t.Entries() - old(t.Entries()))
  {
    SnocFlags(ops, Op.FindOrInsert(key, val));
    FindOrInsertFollows(t, key, val, ops);
  }

  method EraseFollows<V>(t: ChainHash<V>, key: int, ghost ops: seq<Op<V>>)
    requires Follows(t, ops)
    modifies t.tbl, t`chains, t.Entries()`next
    ensures Follows(t, ops + [Op.Erase(key)])
    ensures |t.Entries()| <= |old(t.Entries())| && fresh(t.Entries() - old(t.Entries()))
    ensures old(t.SnapValid()) && t.snap == null ==> t.SnapValid()
  {
    t.Erase(key);
    SubsetSize(t.Entries(), old(t.Entries()));
    forall k ensures Carries(t.Stack(k), StackRun(ops + [Op.Erase(key)], k)) {
      StackRunSnoc(ops, Op.Erase(key), k);
      assert old(Carries(t.Stack(k), StackRun(ops, k)));
      assert Carries(old(t.Stack(k)), StackRun(ops, k));
      PopCarries(old(t.Stack(k)), StackRun(ops, k));
    }
  }

  method ApplyErase<V>(t: ChainHash<V>, key: int, ghost ops: seq<Op<V>>)
    requires Tracks(t, ops)
    modifies t.tbl, t`chains, t.Entries()`next
    ensures Tracks(t, ops + [Op.Erase(key)]) && fresh(t.Entries() - old(t.Entries()))
  {
    UnsnappedSound(ops);
    SnocFlags(ops, Op.Erase(key));
    EraseFollows(t, key, ops);
  }

  method EraseNthFollows<V>(t: ChainHash<V>, key: int, n: nat, ghost ops: seq<Op<V>>)
    requires Follows(t, ops) && t.SnapValid() && t.snap == null
    modifies t.tbl, t`chains, t.Entries()`next
    ensures Follows(t, ops + [Op.EraseNth(key, n)])
    ensures |t.Entries()| <= |old(t.Entries())| && fresh(t.Entries() - old(t.Entries()))
    ensures old(t.SnapValid()) && t.snap == null ==> t.SnapValid()
  {
    EraseNthEntry(t, key, n);
    SubsetSize(t.Entries(), old(t.Entries()));
    forall k ensures Carries(t.Stack(k), StackRun(ops + [Op.EraseNth(key, n)], k)) {
      StackRunSnoc(ops, Op.EraseNth(key, n), k);
      assert old(Carries(t.Stack(k), StackRun(ops, k)));
      assert Carries(old(t.Stack(k)), StackRun(ops, k));
      RemoveCarries(old(t.Stack(k)), StackRun(ops, k), n);
    }
  }

  method ApplyEraseNth<V>(t: ChainHash<V>, key: int, n: nat, ghost ops: seq<Op<V>>)
    requires Tracks(t, ops) && !Snapped(ops)
    modifies t.tbl, t`chains, t.Entries()`next
    ensures Tracks(t, ops + [Op.EraseNth(key, n)]) && fresh(t.Entries() - old(t.Entries()))
  {
    UnsnappedSound(ops);
    EraseNthFollows(t, key, n, ops);
    ErasedTracks(t, ops, Op.EraseNth(key, n));
  }

  lemma ErasedTracks<V>(t: ChainHash<V>, ops: seq<Op<V>>, op: Op<V>)
    requires op.EraseNth? && !Snapped(ops) && Follows(t, ops + [op])
    requires |t.Entries()| <= |ops| && t.SnapValid() && t.snap == null
    ensures Tracks(t, ops + [op])
  {
    SnocFlags(ops, op);
  }

  method ApplyClear<V>(t: ChainHash<V>, ghost ops: seq<Op<V>>)
    requires Tracks(t, ops)
    modifies t.tbl, t`chains, t`snap, t`snapshot
    ensures Tracks(t, ops + [Op.Clear]) && fresh(t.Entries() - old(t.Entries()))
  {
    t.Clear();
    SnocFlags(ops, Op.Clear);
    assert t.Entries() == {};
    forall k ensures Carries(t.Stack(k), StackRun(ops + [Op.Clear], k)) {
      StackRunSnoc(ops, Op.Clear, k);
    }
  }

  method ApplySnap<V>(t: ChainHash<V>, ghost ops: seq<Op<V>>)
    requires Tracks(t, ops)
    modifies t`snap, t`snapshot, t.Entries()`snap
    ensures Tracks(t, ops + [Op.Snap]) && t.Entries() == old(t.Entries())
  {
    if Sound(ops) {
      t.SnapWithin();
    }
    t.Snap();
    SnocFlags(ops, Op.Snap);
    forall k ensures Carries(t.Stack(k), StackRun(ops + [Op.Snap], k)) {
      StackRunSnoc(ops, Op.Snap, k);
      assert old(Carries(t.Stack(k), StackRun(ops, k)));
    }
  }

  method ApplySort<V>(t: ChainHash<V>, ghost ops: seq<Op<V>>)
    requires Tracks(t, ops) && Sound(ops) && |ops| <= SIZE_T
    modifies t`snap, t`snapshot, t.Entries()`snap
    ensures Tracks(t, ops + [Op.Sort]) && t.Entries() == old(t.Entries())
  {
    SnapFits(t);
    ghost var comps := t.SortSnapshot();
    SnocFlags(ops, Op.Sort);
    forall k ensures Carries(t.Stack(k), StackRun(ops + [Op.Sort], k)) {
      StackRunSnoc(ops, Op.Sort, k);
      assert old(Carries(t.Stack(k), StackRun(ops, k)));
    }
  }

  /** A sound snapshot holds stored entries, and no more than there are. */
  lemma SnapFits<V>(t: ChainHash<V>)
    requires t.Valid() && t.SnapValid()
    ensures |t.snapshot| <= |t.Entries()| && forall e :: e in t.snapshot ==> e in t.Entries()
  {
    NoDupSize(t.snapshot);
    SubsetSize(Elements(t.snapshot), t.Entries());
  }

  lemma SubsetSize<T>(a: set<T>, b: set<T>)
    requires a <= b
    ensures |a| <= |b|
  {
    assert b == a + (b - a);
  }

  method ApplyOp<V>(t: ChainHash<V>, op: Op<V>, ghost ops: seq<Op<V>>)
    requires Tracks(t, ops) && Fits(ops, op)
    modifies t.tbl, t`chains, t`snap, t`snapshot, t.Entries()`next, t.Entries()`snap
    ensures Tracks(t, ops + [op]) && fresh(t.Entries() - old(t.Entries()))
  {
    match op
    case Insert(key, val) => ApplyInsert(t, key, val, ops);
    case FindOrInsert(key, val) => ApplyFindOrInsert(t, key, val, ops);
    case Erase(key) => ApplyErase(t, key, ops);
    case EraseNth(key, n) => ApplyEraseNth(t, key, n, ops);
    case Clear => ApplyClear(t, ops);
    case Snap => ApplySnap(t, ops);
    case Sort => ApplySort(t, ops);
  }

  method NewTable<V>(min: nat) returns (t: ChainHash<V>)
    requires 0 < min <= SIZE_T / 2
    ensures Follows(t, []) && fresh(t) && fresh(t.tbl) && t.Entries() == {}
    ensures t.SnapValid() && t.snap == null && t.mask < SIZE_T / 2 && LeastPow2(min, t.mask + 1)
  {
    t := new ChainHash<V>(min);
    forall k ensures t.Stack(k) == [] {
      MaskIsMod(SizeT(k), t.mask + 1);
    }
  }

  method PerformAll<V>(min: nat, ops: seq<Op<V>>) returns (t: ChainHash<V>)
    requires 0 < min <= SIZE_T / 2
    requires forall n :: 0 <= n < |ops| ==> Fits(ops[..n], ops[n])
    ensures Tracks(t, ops)
  {
    t := NewTable(min);
    for n := 0 to |ops|
      invariant Tracks(t, ops[..n])
      invariant fresh(t) && fresh(t.tbl) && fresh(t.Entries())
    {
      assert ops[..n + 1] == ops[..n] + [ops[n]];
      ApplyOp(t, ops[n], ops[..n]);
    }
    assert ops[..|ops|] == ops;
  }

  lemma FollowsIs<V>(t: ChainHash<V>, ops: seq<Op<V>>)
    requires Follows(t, ops)
    ensures forall k :: |t.Stack(k)| == |StackRun(ops, k)|
    ensures forall k, j :: 0 <= j < |t.Stack(k)| ==> t.Stack(k)[j].val == StackRun(ops, k)[j]
  {
    forall k
      ensures |t.Stack(k)| == |StackRun(ops, k)|
      ensures forall j :: 0 <= j < |t.Stack(k)| ==> t.Stack(k)[j].val == StackRun(ops, k)[j]
    {
      assert Carries(t.Stack(k), StackRun(ops, k));
    }
  }

  /** In every history, from a new table on, each key carries the stack of values that the history left under
      it; a snapshot, and sorting it, changes no stack. */
  method Replay<V>(min: nat, ops: seq<Op<V>>) returns (t: ChainHash<V>)
    requires 0 < min <= SIZE_T / 2
    requires forall n :: 0 <= n < |ops| && ops[n].Sort? ==> Sound(ops[..n]) && n <= SIZE_T
    requires forall n :: 0 <= n < |ops| && ops[n].EraseNth? ==> !Snapped(ops[..n])
    ensures Tracks(t, ops) && t.Valid()
    ensures forall k :: |t.Stack(k)| == |StackRun(ops, k)|
    ensures forall k, j :: 0 <= j < |t.Stack(k)| ==> t.Stack(k)[j].val == StackRun(ops, k)[j]
  {
    t := PerformAll(min, ops);
    FollowsIs(t, ops);
  }

  // ---------- erasing at the end of a walk ----------

  /** The entry with key that comes after n others with it is the n-th of its stack. */
  lemma WithKeyAt<V>(s: seq<Entry<V>>, m: nat, key: int)
    requires m < |s| && s[m].key == key
    ensures |WithKey(s[..m], key)| < |WithKey(s, key)|
    ensures WithKey(s, key)[|WithKey(s[..m], key)|] == s[m]
  {
    WithKeyConcat(s[..m], s[m..], key);
    assert s == s[..m] + s[m..] && s[m..][0] == s[m];
  }

  lemma WithKeyNext<V>(s: seq<Entry<V>>, m: nat, key: int)
    requires m < |s|
    ensures |WithKey(s[..m + 1], key)| == |WithKey(s[..m], key)| + (if s[m].key == key then 1 else 0)
  {
    assert s[..m + 1] == s[..m] + [s[m]];
    WithKeyConcat(s[..m], [s[m]], key);
  }

  /** Walks from begin to the entry with key that n others precede, or to the end. */
  method WalkToNth<V>(t: ChainHash<V>, key: int, n: nat) returns (it: Itr<V>)
    requires t.Valid() && t.SnapValid() && t.snap == null
    ensures it.entry == if n < |t.Stack(key)| then t.Stack(key)[n] else null
    ensures it.entry != null ==> t.InPlace(it)
  {
    it := t.Begin();
    var seen := 0;
    ghost var m := 0;
    ghost var order := t.Order();
    while it.entry != null && !(it.entry.key == key && seen == n)
      invariant t.OnWalk(it, m) && m <= |order|
      invariant seen == |WithKey(order[..m], key)| <= n
      decreases |order| - m
    {
      WithKeyNext(order, m, key);
      if it.entry.key == key {
        seen := seen + 1;
      }
      it := t.Visit(it, m);
      m := m + 1;
    }
    t.OrderIsStack(key);
    if it.entry != null {
      WithKeyAt(order, m, key);
    } else {
      assert order[..m] == order;
    }
  }

  lemma StackOnce<V>(t: ChainHash<V>, key: int)
    requires t.Valid()
    ensures NoDup(t.Stack(key))
  {
    MaskIsMod(SizeT(key), t.mask + 1);
    WithKeyNoDup(t.chains[Slot(key, t.mask)], key);
  }

  lemma {:induction false} WithKeyNoDup<V>(s: seq<Entry<V>>, key: int)
    requires NoDup(s)
    ensures NoDup(WithKey(s, key))
  {
    if s != [] {
      WithKeyNoDup(s[1..], key);
      WithKeyMembers(s[1..], key, s[0]);
    }
  }

  method EraseNthEntry<V>(t: ChainHash<V>, key: int, n: nat)
    requires t.Valid() && t.SnapValid() && t.snap == null
    modifies t.tbl, t`chains, t.Entries()`next
    ensures t.Valid() && t.SnapValid() && t.Entries() <= old(t.Entries())
    ensures forall k ::
              t.Stack(k) == (if k == key && n < |old(t.Stack(k))| then Remove(old(t.Stack(k)), n) else old(t.Stack(k)))
  {
    var it := WalkToNth(t, key, n);
    ghost var s, p: nat := t.Stack(key), 0;
    StackOnce(t, key);
    if it.entry != null {
      p :| t.At(it, p);
      InItsStack(t, key, n);
    }
    t.EraseAt(it, p, p);
  }

  lemma InItsStack<V>(t: ChainHash<V>, key: int, n: nat)
    requires t.Valid() && n < |t.Stack(key)|
    ensures t.Stack(key)[n].key == key
  {
    MaskIsMod(SizeT(key), t.mask + 1);
    WithKeyMembers(t.chains[Slot(key, t.mask)], key, t.Stack(key)[n]);
  }

  // ---------- walking a snapshot ----------

  /** find_or_insert calls made after a snapshot stay invisible to it. */
  method InsertAfterSnap<V>(t: ChainHash<V>, pairs: seq<(int, V)>)
    requires t.Valid() && t.SnapValid()
    modifies t.tbl, t`chains, t.Entries()`next
    ensures t.Valid() && t.SnapValid() && t.snapshot == old(t.snapshot) && t.snap == old(t.snap)
    ensures fresh(t.Entries() - old(t.Entries()))
    ensures old(t.UniqueKeys()) ==> t.UniqueKeys()
  {
    for n := 0 to |pairs|
      invariant t.Valid() && t.SnapValid()
      invariant fresh(t.Entries() - old(t.Entries()))
      invariant old(t.UniqueKeys()) ==> t.UniqueKeys()
    {
      var it := t.FindOrInsert(pairs[n].0, pairs[n].1);
    }
  }

  /** The iterators passed so far stand at the first entries of the iteration order, and in place
      when the order is exact. */
  ghost predicate Passed<V>(t: ChainHash<V>, visited: seq<Itr<V>>, exact: bool)
    reads t
  {
    && |visited| <= |t.Order()|
    && forall j :: 0 <= j < |visited| ==> visited[j].entry == t.Order()[j] && (exact ==> t.InPlace(visited[j]))
  }

  lemma {:induction false} Places<V>(t: ChainHash<V>, visited: seq<Itr<V>>, n: nat) returns (places: seq<nat>)
    requires Passed(t, visited, true) && n <= |visited|
    ensures |places| == n && forall j :: 0 <= j < n ==> t.At(visited[j], places[j])
  {
    places := [];
    if n > 0 {
      places := Places(t, visited, n - 1);
      assert t.InPlace(visited[n - 1]);
      var p: nat :| t.At(visited[n - 1], p);
      places := places + [p];
    }
  }

  /** A walk stands at it and has passed visited. */
  ghost predicate Walking<V>(t: ChainHash<V>, it: Itr<V>, visited: seq<Itr<V>>, exact: bool)
    reads t, t.tbl, t.Entries(), set e | e in t.snapshot
  {
    && t.OnWalk(it, |visited|) && Passed(t, visited, exact)
    && (exact ==> (t.snap == null || t.UniqueKeys()) && (it.entry != null ==> t.InPlace(it)))
  }

  method WalkStart<V>(t: ChainHash<V>, ghost exact: bool) returns (it: Itr<V>)
    requires t.Valid() && t.SnapValid()
    requires exact ==> t.snap == null || t.UniqueKeys()
    ensures Walking(t, it, [], exact)
  {
    it := t.Begin();
  }

  method WalkStep<V>(t: ChainHash<V>, it: Itr<V>, ghost visited: seq<Itr<V>>, ghost exact: bool) returns (r: Itr<V>)
    requires Walking(t, it, visited, exact) && it.entry != null
    ensures Walking(t, r, visited + [it], exact) && |visited| < |t.Order()|
  {
    PassedMore(t, it, visited, exact);
    r := t.Increment(it, |visited|);
  }

  lemma PassedMore<V>(t: ChainHash<V>, it: Itr<V>, visited: seq<Itr<V>>, exact: bool)
    requires Passed(t, visited, exact) && |visited| < |t.Order()|
    requires it.entry == t.Order()[|visited|] && (exact ==> t.InPlace(it))
    ensures Passed(t, visited + [it], exact)
  {
  }

  lemma WalkDone<V>(t: ChainHash<V>, it: Itr<V>, visited: seq<Itr<V>>, exact: bool)
    requires Walking(t, it, visited, exact) && it.entry == null
    ensures |visited| == |t.Order()| && Passed(t, visited, exact)
  {
  }

  /** Iterates over the table from begin to end. */
  method Walk<V>(t: ChainHash<V>, ghost exact: bool) returns (visited: seq<Itr<V>>)
    requires t.Valid() && t.SnapValid()
    requires exact ==> t.snap == null || t.UniqueKeys()
    ensures |visited| == |t.Order()| && Passed(t, visited, exact)
  {
    visited := [];
    var it := WalkStart(t, exact);
    while it.entry != null
      invariant Walking(t, it, visited, exact)
      decreases |t.Order()| - |visited|
    {
      var r := WalkStep(t, it, visited, exact);
      visited := visited + [it];
      it := r;
    }
    WalkDone(t, it, visited, exact);
  }

  /** What a snapshot of all entries becomes: sorted, or left in bucket order. */
  ghost function Arranged<V>(all: seq<Entry<V>>, sorts: bool): seq<Entry<V>> {
    if sorts then StableSort.Sort(all) else all
  }

  /** A snapshot, perhaps sorted, with find_or_insert calls before the sort and after it. */
  method SnapAndInsert<V>(t: ChainHash<V>, before: seq<(int, V)>, sorts: bool, behind: seq<(int, V)>)
    requires t.Valid() && t.UniqueKeys() && 0 < |Flat(t.chains)| <= SIZE_T
    modifies t, t.tbl, t.Entries()`next, t.Entries()`snap
    ensures t.Valid() && t.SnapValid() && t.UniqueKeys()
    ensures t.snap != null && t.snapshot == Arranged(old(Flat(t.chains)), sorts)
  {
    ghost var all := Flat(t.chains);
    t.AllStored();
    t.Snap();
    InsertAfterSnap(t, before);
    SortLength(all);
    if sorts {
      ghost var comps := t.SortSnapshot();
    }
    InsertAfterSnap(t, behind);
  }

  /** After a snapshot of a non-empty table with unique keys, sorted or not, and any number of
      find_or_insert calls before and after the sort, an iteration visits exactly the entries present when
      the snapshot was taken, in key order or in bucket order, each at its true place in its chain. */
  method SnapshotWalk<V>(t: ChainHash<V>, before: seq<(int, V)>, sorts: bool, behind: seq<(int, V)>)
    returns (visited: seq<Itr<V>>, ghost places: seq<nat>)
    requires t.Valid() && t.UniqueKeys() && 0 < |Flat(t.chains)| <= SIZE_T
    modifies t, t.tbl, t.Entries()`next, t.Entries()`snap
    ensures t.Valid() && |places| == |visited|
    ensures |visited| == |old(Flat(t.chains))| == |Arranged(old(Flat(t.chains)), sorts)|
    ensures forall j :: 0 <= j < |visited| ==>
              && visited[j].entry == (if sorts then StableSort.Sort(old(Flat(t.chains))) else old(Flat(t.chains)))[j]
              && t.At(visited[j], places[j])
  {
    SortLength(Flat(t.chains));
    SnapAndInsert(t, before, sorts, behind);
    visited := Walk(t, true);
    places := Places(t, visited, |visited|);
  }

  // ---------- inputs on which copies, sizes and erasures surprise ----------

  /** The key is stored, in one entry that the snapshot does not have. */
  ghost predicate Hidden<V>(t: ChainHash<V>, key: int)
    reads t, t.tbl, t.Entries(), set e | e in t.snapshot
  {
    t.Valid() && t.SnapValid() && t.snap != null && |t.Stack(key)| == 1 && t.Stack(key)[0] !in t.snapshot
  }

  method InsertHidden<V>(t: ChainHash<V>, key: int, val: V) returns (e: Entry<V>)
    requires t.Valid() && t.SnapValid() && t.snap != null && t.Stack(key) == []
    modifies t.tbl, t`chains, t.Entries()`next
    ensures Hidden(t, key) && t.Stack(key)[0] == e && e.val == val
  {
    var it := t.FindOrInsert(key, val);
    e := it.entry;
  }

  /** Under a snapshot, a key inserted later is found in the table, but size does not count it and a copy
      does not have it. */
  method SnapHides<V>(t: ChainHash<V>, key: int, val: V) returns (n: nat, copy: ChainHash<V>)
    requires t.Valid() && t.SnapValid() && t.snap != null && t.Stack(key) == [] && t.mask < SIZE_T / 2
    modifies t.tbl, t`chains, t.Entries()`next
    ensures IsPow2(|t.chains|) && |t.Stack(key)| == 1 && t.Stack(key)[0].val == val && n < |Flat(t.chains)|
    ensures copy.Valid() && copy.Stack(key) == []
  {
    var e := InsertHidden(t, key, val);
    n := SizeHidden(t, key);
    copy := CopyHidden(t, key);
  }

  method SizeHidden<V>(t: ChainHash<V>, ghost key: int) returns (n: nat)
    requires Hidden(t, key)
    ensures Hidden(t, key) && n < |Flat(t.chains)|
  {
    NotInSnapshot(t, key, t.Stack(key)[0]);
    n := t.Size();
  }

  method CopyHidden<V>(t: ChainHash<V>, ghost key: int) returns (copy: ChainHash<V>)
    requires Hidden(t, key) && t.mask < SIZE_T / 2
    ensures copy.Valid() && copy.Stack(key) == []
  {
    NotInSnapshot(t, key, t.Stack(key)[0]);
    copy := CopyOf(t, key);
  }

  method CopyOf<V>(t: ChainHash<V>, ghost key: int) returns (copy: ChainHash<V>)
    requires t.Valid() && t.SnapValid() && t.mask < SIZE_T / 2
    ensures copy.Valid() && Mirrors(copy.Stack(key), WithKey(t.Order(), key))
  {
    copy := new ChainHash<V>.Copy(t);
  }

  /** The one entry of a key is not in the snapshot, so none of the key is. */
  lemma NotInSnapshot<V>(t: ChainHash<V>, key: int, e: Entry<V>)
    requires t.Valid() && t.SnapValid() && t.snap != null && t.Stack(key) == [e] && e !in t.snapshot
    ensures e in Flat(t.chains) && WithKey(t.Order(), key) == []
  {
    MaskIsMod(SizeT(key), t.mask + 1);
    var c := t.chains[Slot(key, t.mask)];
    WithKeyMembers(c, key, e);
    FlatMembers(t.chains, e);
    forall x | x in t.snapshot ensures x.key != key {
      if x.key == key {
        WithKeyMembers(c, key, x);
      }
    }
    WithKeyAbsent(t.snapshot, key);
  }

  lemma NewIsEmpty<V>(t: ChainHash<V>)
    requires Follows(t, [])
    ensures forall k :: t.Stack(k) == []
  {
    forall k ensures t.Stack(k) == [] { assert Carries(t.Stack(k), StackRun([], k)); }
  }

  /** One key, under a snapshot. */
  method OneUnderSnap<V>(key: int, v: V) returns (t: ChainHash<V>)
    ensures t.Valid() && t.SnapValid() && t.snap != null && t.mask < SIZE_T / 2
    ensures fresh(t) && fresh(t.tbl) && fresh(t.Entries())
    ensures |t.Stack(key)| == 1 && forall k :: k != key ==> t.Stack(k) == []
  {
    t := NewTable(1);
    NewIsEmpty(t);
    var it := t.Insert(key, v);
    InFlat(t, key, it.entry);
    t.Snap();
  }

  /** Once its only key is erased, a new snapshot of the table leaves the old one in force. */
  method StaleSnap<V>(key: int, v: V) returns (t: ChainHash<V>)
    ensures t.Valid() && t.snap != null && Flat(t.chains) == []
  {
    t := OneUnderSnap(key, v);
    t.Erase(key);
    NoStacks(t);
    t.Snap();
  }

  lemma NoStacks<V>(t: ChainHash<V>)
    requires t.Valid() && forall k :: t.Stack(k) == []
    ensures Flat(t.chains) == []
  {
    if Flat(t.chains) != [] {
      var e := Flat(t.chains)[0];
      var s := t.Stack(e.key);
      FlatMembers(t.chains, e);
      MaskIsMod(SizeT(e.key), t.mask + 1);
      WithKeyMembers(t.chains[Slot(e.key, t.mask)], e.key, e);
      assert false;
    }
  }

  lemma InItsChain<V>(t: ChainHash<V>, key: int, e: Entry<V>)
    requires t.Valid() && e in t.Stack(key)
    ensures e.key == key && Slot(key, t.mask) < |t.chains| && e in t.chains[Slot(key, t.mask)]
  {
    MaskIsMod(SizeT(key), t.mask + 1);
    WithKeyMembers(t.chains[Slot(key, t.mask)], key, e);
  }

  lemma InFlat<V>(t: ChainHash<V>, key: int, e: Entry<V>)
    requires t.Valid() && e in t.Stack(key)
    ensures Flat(t.chains) != []
  {
    InItsChain(t, key, e);
    FlatMembers(t.chains, e);
  }

  /** Such a table: one key under the snapshot, another inserted later. */
  method SnapHidesOne<V>(key: int, v: V, later: int, w: V) returns (t: ChainHash<V>, n: nat, copy: ChainHash<V>)
    requires later != key
    ensures IsPow2(|t.chains|) && |t.Stack(later)| == 1 && t.Stack(later)[0].val == w && n < |Flat(t.chains)|
    ensures copy.Valid() && copy.Stack(later) == []
  {
    t := OneUnderSnap(key, v);
    n, copy := SnapHides(t, later, w);
  }

  /** A table that holds two values under one key, the newer one on top. */
  method TwoOfAKey<V>(key: int, v: V, w: V) returns (t: ChainHash<V>, newer: Entry<V>, older: Entry<V>)
    ensures t.Valid() && t.SnapValid() && t.snap == null && t.mask < SIZE_T / 2
    ensures fresh(t) && fresh(t.tbl) && fresh(t.Entries())
    ensures t.Stack(key) == [newer, older] && newer != older && forall k :: k != key ==> t.Stack(k) == []
    ensures newer.val == w && older.val == v && older.key == key
  {
    t := NewTable(1);
    NewIsEmpty(t);
    var first := t.Insert(key, v);
    older := first.entry;
    var second := t.Insert(key, w);
    newer := second.entry;
  }

  /** A copy finds the older of two values. */
  method CopyReverses<V>(key: int, v: V, w: V) returns (t: ChainHash<V>, copy: ChainHash<V>)
    ensures t.Valid() && copy.Valid() && |t.Stack(key)| == |copy.Stack(key)| == 2
    ensures t.Stack(key)[0].val == w && copy.Stack(key)[0].val == v
  {
    var newer, older;
    t, newer, older := TwoOfAKey(key, v, w);
    t.OrderIsStack(key);
    copy := CopyOf(t, key);
    assert copy.Stack(key)[0].val == [newer, older][1].val;
  }
}
