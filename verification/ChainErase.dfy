/** Erasing from the chained table through iterators: what an iterator that carries its own predecessor
    erases, what the iterators of a snapshot walk and stale ones do, and inputs on which they surprise. */
module ChainErase {
  import opened Bits
  import opened StableSort
  import opened Chains
  import opened ChainHash
  import opened ChainHistory

  // ---------- iterators of a walk over a snapshot ----------

  lemma CutLosesTop<V>(chains: seq<seq<Entry<V>>>, h: nat, key: int, p: nat)
    requires IsPow2(|chains|) && h == Slot(key, |chains| - 1) && h < |chains|
    requires p < |chains[h]| && chains[h][p].key == key
    ensures var q := FirstWith(chains[h], key);
            && q <= p && StackOf(chains, key) != []
            && (q == p ==> chains[h][p] == StackOf(chains, key)[0])
            && (q < p ==> |StackOf(chains[h := Cut(chains[h], q, p)], key)| + 2 <= |StackOf(chains, key)|)
  {
    TopOfStack(chains, h, key);
    if FirstWith(chains[h], key) < p {
      CutLoses(chains[h], FirstWith(chains[h], key), p);
    }
  }

  /** erase through an iterator of a walk over a snapshot: exactly its entry goes when, and only when, that
      is the newest one with its key; otherwise the newest one goes too. */
  method EraseTopped<V>(t: ChainHash<V>, itr: Itr<V>, ghost key: int)
    requires t.Valid() && t.Topped(itr) && itr.entry.key == key
    modifies t.tbl, t`chains, t.Entries()`next
    ensures t.Valid() && |t.chains| == |old(t.chains)| && old(t.Stack(key)) != []
    ensures t.OnlyLost(old(t.chains), itr.entry) <==> itr.entry == old(t.Stack(key))[0]
    ensures itr.entry != old(t.Stack(key))[0] ==> |t.Stack(key)| + 2 <= |old(t.Stack(key))|
  {
    ghost var h, c := itr.index, t.chains[itr.index];
    ghost var q := FirstWith(c, key);
    ghost var p: nat :| t.Behind(itr, q, p);
    assert c[p] in c && c[p] == itr.entry;
    CutLosesTop(t.chains, h, key, p);
    TopIsFirst(t, h, key, p);
    t.EraseAt(itr, q, p);
  }

  lemma TopIsFirst<V>(t: ChainHash<V>, h: nat, key: int, p: nat)
    requires t.Valid() && h == Slot(key, t.mask) && h < |t.chains| && p < |t.chains[h]| && t.Stack(key) != []
    ensures t.chains[h][p] == t.Stack(key)[0] ==> p == FirstWith(t.chains[h], key)
  {
    TopOfStack(t.chains, h, key);
  }

  /** When no other key is stored, all entries in bucket order are the stack of that key. */
  lemma FlatIsStack<V>(t: ChainHash<V>, key: int)
    requires t.Valid() && t.snap == null && forall k :: k != key ==> t.Stack(k) == []
    ensures Flat(t.chains) == t.Stack(key)
  {
    forall e | e in Flat(t.chains) ensures e.key == key {
      FlatMembers(t.chains, e);
      MaskIsMod(SizeT(e.key), t.mask + 1);
      WithKeyMembers(t.chains[Slot(e.key, t.mask)], e.key, e);
      var s := t.Stack(e.key);
    }
    WithKeyAll(Flat(t.chains), key);
    t.OrderIsStack(key);
  }

  /** The walk of a snapshot of two entries with one key has come to the second one. */
  method WalkToSecond<V>(t: ChainHash<V>, newer: Entry<V>, older: Entry<V>, ghost key: int) returns (it: Itr<V>)
    requires t.Valid() && t.SnapValid() && t.snap == null
    requires t.Stack(key) == [newer, older] && forall k :: k != key ==> t.Stack(k) == []
    modifies t`snap, t`snapshot, t.Entries()`snap
    ensures t.Valid() && t.SnapValid() && t.chains == old(t.chains) && t.Topped(it) && it.entry == older
  {
    FlatIsStack(t, key);
    t.Snap();
    it := SecondOfWalk(t);
  }

  method SecondOfWalk<V>(t: ChainHash<V>) returns (it: Itr<V>)
    requires t.Valid() && t.SnapValid() && t.snap != null && |t.snapshot| == 2
    ensures t.Topped(it) && it.entry == t.snapshot[1]
  {
    it := t.Begin();
    it := t.Increment(it, 0);
  }

  /** Two values under one key, a snapshot, a walk to the older one, and an erase there: neither is left. */
  method EraseLosesBoth<V>(key: int, v: V, w: V) returns (t: ChainHash<V>)
    ensures t.Valid() && t.Stack(key) == []
  {
    var newer, older;
    t, newer, older := TwoOfAKey(key, v, w);
    assert older in t.Stack(key);
    InItsChain(t, key, older);
    var it := WalkToSecond(t, newer, older, key);
    EraseTopped(t, it, key);
  }

  // ---------- stale iterators ----------

  /** after is before with one more entry, with that key, at the front of chain h. */
  ghost predicate Pushed<V>(before: seq<seq<Entry<V>>>, after: seq<seq<Entry<V>>>, h: nat, key: int) {
    && h < |before| == |after| && after[h] != [] && after[h][0].key == key
    && after == before[h := [after[h][0]] + before[h]]
  }

  /** Where an iterator stands after an insert: one position further in the same chain, with the predecessor
      it had; so with the new entry behind that, when it had none. */
  method InsertUnder<V>(t: ChainHash<V>, itr: Itr<V>, ghost q: nat, ghost p: nat, key: int, val: V)
    returns (ghost q': nat, ghost p': nat)
    requires t.Valid() && t.Behind(itr, q, p) && itr.entry != null
    modifies t.tbl, t`chains
    ensures t.Valid() && t.Behind(itr, q', p') && |t.chains| == |old(t.chains)|
    ensures Pushed(old(t.chains), t.chains, Slot(key, t.mask), key) && fresh(t.chains[Slot(key, t.mask)][0])
    ensures p' == (if Slot(key, t.mask) == itr.index then p + 1 else p)
    ensures q' == (if Slot(key, t.mask) == itr.index && itr.parent != null then q + 1 else q)
    ensures itr.parent == null <==> q == 0
  {
    var n := t.Set(key, val);
    ghost var d := if n.index == itr.index then 1 else 0;
    q', p' := if q == 0 then 0 else q + d, p + d;
  }

  /** An erase through an iterator that carried its own predecessor before an insert removes exactly its entry
      when, and only when, the insert went to another chain or the iterator carries a predecessor; otherwise the
      new entry goes too. */
  method InsertThenErase<V>(t: ChainHash<V>, itr: Itr<V>, ghost q: nat, ghost p: nat, key: int, val: V)
    returns (ghost mid: seq<seq<Entry<V>>>)
    requires t.Valid() && t.Behind(itr, q, p) && itr.entry != null
    modifies t.tbl, t`chains, t.Entries()`next
    ensures t.Valid() && |mid| == |t.chains| == |old(t.chains)|
    ensures Pushed(old(t.chains), mid, Slot(key, t.mask), key)
    ensures t.OnlyLost(mid, itr.entry) <==> q == p && (Slot(key, t.mask) != itr.index || itr.parent != null)
    ensures Slot(key, t.mask) == itr.index && itr.parent == null ==>
              p < |old(t.chains)[itr.index]|
              && t.chains == old(t.chains)[itr.index := old(t.chains)[itr.index][p + 1..]]
  {
    ghost var before := t.chains;
    ghost var q', p';
    q', p' := InsertUnder(t, itr, q, p, key, val);
    mid := t.chains;
    if Slot(key, t.mask) == itr.index && itr.parent == null {
      CutPushed(before, mid, itr.index, key, p);
    }
    t.EraseAt(itr, q', p');
  }

  lemma CutPushed<V>(before: seq<seq<Entry<V>>>, after: seq<seq<Entry<V>>>, h: nat, key: int, p: nat)
    requires Pushed(before, after, h, key) && p < |before[h]|
    ensures after[h := Cut(after[h], 0, p + 1)] == before[h := before[h][p + 1..]]
  {
    assert Cut(after[h], 0, p + 1) == before[h][p + 1..];
  }

  /** find_or_insert never makes an iterator stale. */
  method FindOrInsertThenErase<V>(t: ChainHash<V>, itr: Itr<V>, ghost q: nat, ghost p: nat, key: int, val: V)
    returns (ghost mid: seq<seq<Entry<V>>>)
    requires t.Valid() && t.Behind(itr, q, p) && itr.entry != null
    modifies t.tbl, t`chains, t.Entries()`next
    ensures t.Valid() && |mid| == |t.chains| == |old(t.chains)|
    ensures t.OnlyLost(mid, itr.entry) <==> q == p
  {
    var n, exist := t.SetUniq(key, val);
    mid := t.chains;
    t.EraseAt(itr, q, p);
  }

  /** A table of one chain. */
  lemma OneChain<V>(t: ChainHash<V>)
    requires t.Valid() && LeastPow2(1, t.mask + 1)
    ensures |t.chains| == 1 && forall k :: Slot(k, t.mask) == 0
  {
    assert 1 <= Pow2(0);
    forall k ensures Slot(k, t.mask) == 0 {
      MaskIsMod(SizeT(k), 1);
    }
  }

  lemma NoEntries<V>(t: ChainHash<V>)
    requires t.Entries() == {} && |t.chains| == 1
    ensures t.chains == [[]]
  {
    StoredEntries(t.chains);
  }

  lemma StoredEntries<V>(chains: seq<seq<Entry<V>>>)
    ensures forall i :: 0 <= i < |chains| && chains[i] != [] ==> EntriesOf(chains) != {}
  {
    forall i | 0 <= i < |chains| && chains[i] != [] ensures EntriesOf(chains) != {} {
      assert chains[i][0] in EntriesOf(chains);
    }
  }

  /** The iterator of a first entry: the one that insert returned, or the first of a walk over a snapshot. */
  method FirstIterator<V>(key: int, v: V, snaps: bool) returns (t: ChainHash<V>, it: Itr<V>)
    ensures t.Valid() && fresh(t) && fresh(t.tbl) && fresh(t.Entries())
    ensures |t.chains| == 1 && (forall k :: Slot(k, t.mask) == 0)
    ensures it.entry != null && it.entry.key == key && t.chains == [[it.entry]] && t.At(it, 0)
  {
    t := NewTable(1);
    OneChain(t);
    NoEntries(t);
    it := t.Set(key, v);
    ghost var e := it.entry;
    assert [e] + [] == [e] && t.chains == [[e]];
    assert forall x :: x in t.Entries() ==> x == e;
    if snaps {
      it := SnapAndBegin(t, e);
    }
  }

  method SnapAndBegin<V>(t: ChainHash<V>, ghost e: Entry<V>) returns (it: Itr<V>)
    requires t.Valid() && t.chains == [[e]] && forall k :: Slot(k, t.mask) == 0
    modifies t`snap, t`snapshot, t.Entries()`snap
    ensures t.Valid() && t.chains == old(t.chains) && it.entry == e && t.At(it, 0)
  {
    FlatOne(t.chains);
    t.Snap();
    it := BeginOne(t, e);
  }

  method BeginOne<V>(t: ChainHash<V>, ghost e: Entry<V>) returns (it: Itr<V>)
    requires t.Valid() && t.SnapValid() && t.snap == e && t.chains == [[e]] && forall k :: Slot(k, t.mask) == 0
    ensures it.entry == e && t.At(it, 0)
  {
    it := t.Begin();
    ghost var p: nat :| t.Behind(it, FirstWith(t.chains[it.index], e.key), p);
  }

  /** Keys that are unique throughout, and an insert between positioning the iterator and the erase: the erase
      takes the new entry along. */
  method StaleErase<V>(key: int, v: V, other: int, w: V, snaps: bool)
    returns (t: ChainHash<V>, ghost mid: seq<seq<Entry<V>>>)
    requires key != other
    ensures t.Valid() && t.Stack(key) == t.Stack(other) == []
    ensures IsPow2(|mid|) && |StackOf(mid, key)| == |StackOf(mid, other)| == 1
    ensures forall k :: |StackOf(mid, k)| <= 1
  {
    var it;
    t, it := FirstIterator(key, v, snaps);
    ghost var e := it.entry;
    mid := InsertThenErase(t, it, 0, 0, other, w);
    assert mid[0] == [mid[0][0]] + [e] == [mid[0][0], e] && mid == [mid[0]];
    TwoUnique(mid, mid[0][0], e);
    assert t.chains[0] == [];
  }

  lemma TwoUnique<V>(chains: seq<seq<Entry<V>>>, a: Entry<V>, b: Entry<V>)
    requires chains == [[a, b]] && a.key != b.key
    ensures IsPow2(|chains|) && |StackOf(chains, a.key)| == |StackOf(chains, b.key)| == 1
    ensures forall k :: |StackOf(chains, k)| <= 1
  {
    assert Pow2(0) == 1;
    forall k ensures |StackOf(chains, k)| == if k == a.key || k == b.key then 1 else 0 {
      MaskIsMod(SizeT(k), 1);
      assert WithKey([b], k) == if k == b.key then [b] else [];
      assert [a, b][1..] == [b];
    }
  }
}
