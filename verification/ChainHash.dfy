/** The chained hash table: chains of entries over one bucket array, a snapshot list threaded through
    the same entries, and iterators that carry an entry, its predecessor and its bucket. */
module ChainHash {
  import opened Bits
  import opened StableSort
  import opened SnapSort
  import opened Chains

  datatype Itr<V> = Itr(entry: Entry?<V>, parent: Entry?<V>, index: nat)

  /** The next links from head thread exactly the entries of s, in order. */
  ghost predicate Links<V>(head: Entry?<V>, s: seq<Entry<V>>)
    reads (set e | e in s)`next
  {
    && head == (if s == [] then null else s[0])
    && forall i {:trigger s[i].next} :: 0 <= i < |s| ==> s[i].next == After(s, i)
  }

  /** The bucket of a key. */
  function Slot(key: int, mask: nat): nat {
    BitAnd(SizeT(key), mask)
  }

  /** The bucket of a key, among a power of two of buckets, is the remainder of the key. */
  lemma SlotIsMod(key: int, n: nat)
    requires IsPow2(n) && n <= SIZE_T
    ensures n > 0 && Slot(key, n - 1) == key % n < n
  {
    MaskIsMod(SizeT(key), n);
    var a: nat :| Pow2(a) == n;
    Pow2Of64();
    if a > 64 { Pow2Mono(65, a); }
    Pow2Product(a, 64 - a);
    ModOfMod(key, n, Pow2(64 - a));
  }

  ghost function EntriesOf<V>(chains: seq<seq<Entry<V>>>): (r: set<Entry<V>>)
    ensures forall i, e :: 0 <= i < |chains| && e in chains[i] ==> e in r
  {
    set i, e | 0 <= i < |chains| && e in chains[i] :: e
  }

  lemma AddEntry<V>(chains: seq<seq<Entry<V>>>, h: nat, c: seq<Entry<V>>, e: Entry<V>)
    requires h < |chains| && (c == [e] + chains[h] || c == chains[h] + [e])
    ensures EntriesOf(chains[h := c]) <= EntriesOf(chains) + {e}
  {
    var r := chains[h := c];
    forall i, x | 0 <= i < |r| && x in r[i] ensures x in EntriesOf(chains) + {e} {
      if x != e { assert x in chains[i]; }
    }
  }

  lemma CutEntries<V>(chains: seq<seq<Entry<V>>>, h: nat, q: nat, p: nat)
    requires h < |chains| && q <= p < |chains[h]|
    ensures EntriesOf(chains[h := Cut(chains[h], q, p)]) <= EntriesOf(chains)
  {
    var r := chains[h := Cut(chains[h], q, p)];
    forall i, e | 0 <= i < |r| && e in r[i] ensures e in EntriesOf(chains) {
      assert e in chains[i];
    }
  }

  /** The entries with a key, first to last in its chain. */
  ghost function StackOf<V>(chains: seq<seq<Entry<V>>>, key: int): seq<Entry<V>>
    requires IsPow2(|chains|)
  {
    MaskIsMod(SizeT(key), |chains|);
    WithKey(chains[Slot(key, |chains| - 1)], key)
  }

  /** Removing the first entry of key pops its stack and leaves the others alone. */
  lemma PopStack<V>(chains: seq<seq<Entry<V>>>, h: nat, key: int, k: int)
    requires IsPow2(|chains|) && h == Slot(key, |chains| - 1) && h < |chains|
    requires FirstWith(chains[h], key) < |chains[h]|
    ensures StackOf(chains, key) != []
    ensures StackOf(chains[h := Remove(chains[h], FirstWith(chains[h], key))], k)
         == (if k == key then StackOf(chains, k)[1..] else StackOf(chains, k))
  {
    MaskIsMod(SizeT(k), |chains|);
    FirstIsTop(chains[h], key);
    PopFirst(chains[h], key, k);
    StackIn(chains, h, Remove(chains[h], FirstWith(chains[h], key)), k);
  }

  /** A chain replaced replaces the stacks of its keys. */
  lemma StackIn<V>(chains: seq<seq<Entry<V>>>, h: nat, c: seq<Entry<V>>, k: int)
    requires IsPow2(|chains|) && h < |chains|
    ensures StackOf(chains[h := c], k) == (if Slot(k, |chains| - 1) == h then WithKey(c, k) else StackOf(chains, k))
  {
    var after, slot := chains[h := c], Slot(k, |chains| - 1);
    StackIs(chains, k);
    StackIs(after, k);
    assert after[slot] == if slot == h then c else chains[slot];
  }

  lemma StackIs<V>(chains: seq<seq<Entry<V>>>, k: int)
    requires IsPow2(|chains|)
    ensures Slot(k, |chains| - 1) < |chains| && StackOf(chains, k) == WithKey(chains[Slot(k, |chains| - 1)], k)
  {
    MaskIsMod(SizeT(k), |chains|);
  }

  /** Appending an entry to its chain appends it to its stack and leaves the others alone. */
  lemma AppendStack<V>(chains: seq<seq<Entry<V>>>, h: nat, e: Entry<V>, k: int)
    requires IsPow2(|chains|) && h == Slot(e.key, |chains| - 1) && h < |chains|
    ensures StackOf(chains[h := chains[h] + [e]], k) == StackOf(chains, k) + (if k == e.key then [e] else [])
  {
    MaskIsMod(SizeT(k), |chains|);
    WithKeyConcat(chains[h], [e], k);
  }

  /** The first entry of key in its chain is the top of its stack. */
  lemma TopOfStack<V>(chains: seq<seq<Entry<V>>>, h: nat, key: int)
    requires IsPow2(|chains|) && h == Slot(key, |chains| - 1) && h < |chains|
    ensures StackOf(chains, key) == [] <==> FirstWith(chains[h], key) == |chains[h]|
    ensures StackOf(chains, key) != [] ==> StackOf(chains, key)[0] == chains[h][FirstWith(chains[h], key)]
  {
    FirstIsTop(chains[h], key);
  }

  /** Appending an entry to its chain makes it the whole of an empty stack. */
  lemma PushFirst<V>(chains: seq<seq<Entry<V>>>, h: nat, e: Entry<V>)
    requires IsPow2(|chains|) && h == Slot(e.key, |chains| - 1) && h < |chains|
    requires StackOf(chains, e.key) == []
    ensures StackOf(chains[h := chains[h] + [e]], e.key) == [e]
    ensures forall k :: k != e.key ==> StackOf(chains[h := chains[h] + [e]], k) == StackOf(chains, k)
  {
    AppendStack(chains, h, e, e.key);
    forall k | k != e.key ensures StackOf(chains[h := chains[h] + [e]], k) == StackOf(chains, k) {
      AppendStack(chains, h, e, k);
    }
  }

  /** t is s without one occurrence of e. */
  ghost predicate Without<T>(s: seq<T>, e: T, t: seq<T>) {
    exists n: nat :: n < |s| && s[n] == e && t == Remove(s, n)
  }

  class ChainHash<V> {
    var mask: nat
    var tbl: array<Entry?<V>>
    var snap: Entry?<V>
    ghost var chains: seq<seq<Entry<V>>>
    ghost var snapshot: seq<Entry<V>>

    ghost function Entries(): (r: set<Entry<V>>)
      reads this`chains
      ensures forall i, e :: 0 <= i < |chains| && e in chains[i] ==> e in r
    {
      EntriesOf(chains)
    }

    /** The chains: each is threaded by next links, free of repetitions, and holds only entries that
        hash to it. */
    ghost predicate Valid()
      reads this`mask, this`tbl, this`chains, tbl, Entries()`next
    {
      && tbl.Length == mask + 1 == |chains|
      && IsPow2(mask + 1)
      && (forall i :: 0 <= i < |chains| ==> Links(tbl[i], chains[i]))
      && (forall i :: 0 <= i < |chains| ==> NoDup(chains[i]))
      && (forall i, e {:trigger e in chains[i]} :: 0 <= i < |chains| && e in chains[i] ==> Slot(e.key, mask) == i)
    }

    /** The snapshot list, when there is one, threads stored entries. */
    ghost predicate SnapValid()
      reads this`mask, this`chains, this`snap, this`snapshot, set e | e in snapshot
    {
      && (snap == null <==> snapshot == [])
      && Threads(snap, snapshot) && NoDup(snapshot)
      && forall e :: e in snapshot ==> Slot(e.key, mask) < |chains| && e in chains[Slot(e.key, mask)]
    }

    /** The entries with a key, the most recently inserted first. */
    ghost function Stack(key: int): seq<Entry<V>>
      reads this`chains
      requires IsPow2(|chains|)
    {
      StackOf(chains, key)
    }

    /** The iterator stands at position p of its chain, with the predecessor of position q. */
    ghost predicate Behind(itr: Itr<V>, q: nat, p: nat)
      reads this`chains
    {
      && itr.index < |chains| && q <= p <= |chains[itr.index]|
      && itr.entry == After(chains[itr.index], p - 1)
      && itr.parent == Pred(chains[itr.index], q)
    }

    /** The iterator stands at position p of its chain. */
    ghost predicate At(itr: Itr<V>, p: nat)
      reads this`chains
    {
      Behind(itr, p, p)
    }

    constructor (min: nat)
      requires 0 < min <= SIZE_T / 2
      ensures Valid() && SnapValid() && fresh(tbl) && snap == null
      ensures LeastPow2(min, mask + 1) && mask < SIZE_T / 2
      ensures chains == seq(mask + 1, _ => []) && Entries() == {}
    {
      SmearedMaskRounds(min);
      MaskFits(min);
      mask := SmearedMask(min);
      tbl := new Entry?<V>[SmearedMask(min) + 1](_ => null);
      snap := null;
      chains := seq(SmearedMask(min) + 1, _ => []);
      snapshot := [];
    }

    /** The first entry of key in its chain, with its predecessor; past the end when key is absent. */
    method Get(key: int) returns (itr: Itr<V>)
      requires Valid()
      ensures itr.index == Slot(key, mask) < |chains|
      ensures At(itr, FirstWith(chains[itr.index], key))
    {
      MaskIsMod(SizeT(key), mask + 1);
      var h := BitAnd(SizeT(key), mask);
      ghost var c, n := chains[h], 0;
      var e, p: Entry?<V> := tbl[h], null;
      assert c[0..] == c;
      while e != null && e.key != key
        invariant n <= |c| && Links(tbl[h], c)
        invariant e == After(c, n - 1) && p == (if n == 0 then null else c[n - 1])
        invariant FirstWith(c, key) == n + FirstWith(c[n..], key)
        decreases |c| - n
      {
        assert c[n].next == After(c, n) && c[n..][1..] == c[n + 1..];
        p := e;
        e := e.next;
        n := n + 1;
      }
      itr := Itr(e, p, h);
    }

    /** Links a new entry behind the last one of a chain. */
    method Append(itr: Itr<V>, e: Entry<V>)
      requires Valid() && itr.index < |chains| && itr.entry == null && At(itr, |chains[itr.index]|)
      requires e !in Entries() && e.next == null && Slot(e.key, mask) == itr.index
      modifies tbl, this`chains, Entries()`next
      ensures Valid() && chains == old(chains)[itr.index := old(chains)[itr.index] + [e]]
    {
      ghost var h, c := itr.index, chains[itr.index];
      if itr.parent != null {
        assert itr.parent in chains[h] && forall i :: 0 <= i < |chains| && i != h ==> itr.parent !in chains[i];
        itr.parent.next := e;
      } else {
        tbl[itr.index] := e;
      }
      ghost var r := c + [e];
      chains := chains[h := r];
      assert old(Links(tbl[h], c));
      forall t | 0 <= t < |r| ensures r[t].next == After(r, t) {
        assert t < |c| ==> r[t] == c[t] && old(c[t].next) == After(c, t);
      }
      forall i | 0 <= i < |chains| && i != h ensures Links(tbl[i], chains[i]) {
        assert old(Links(tbl[i], chains[i]));
      }
    }

    /** Appends an entry to the chain of key unless the key is there. */
    method SetUniq(key: int, val: V) returns (itr: Itr<V>, exist: bool)
      requires Valid()
      modifies tbl, this`chains, Entries()`next
      ensures Valid() && itr.index == Slot(key, mask) < |chains| == |old(chains)|
      ensures var p := FirstWith(old(chains)[itr.index], key); At(itr, p) && (exist <==> p < |old(chains)[itr.index]|)
      ensures fresh(Entries() - old(Entries()))
      ensures exist ==> chains == old(chains)
      ensures itr.entry != null && Entries() <= old(Entries()) + {itr.entry}
      ensures !exist ==>
                && fresh(itr.entry) && itr.entry.key == key && itr.entry.val == val
                && chains == old(chains)[itr.index := old(chains)[itr.index] + [itr.entry]]
    {
      itr := Get(key);
      exist := itr.entry != null;
      if !exist {
        var e := new Entry<V>(key, val);
        Append(itr, e);
        AddEntry(old(chains), itr.index, chains[itr.index], e);
        itr := itr.(entry := e);
      }
    }

    /** Puts an entry in front of the chain of key. */
    method Set(key: int, val: V) returns (itr: Itr<V>)
      requires Valid()
      modifies tbl, this`chains
      ensures Valid() && itr.index == Slot(key, mask) < |chains| == |old(chains)| && At(itr, 0)
      ensures fresh(itr.entry) && itr.entry.key == key && itr.entry.val == val
      ensures chains == old(chains)[itr.index := [itr.entry] + old(chains)[itr.index]]
    {
      MaskIsMod(SizeT(key), mask + 1);
      var h := BitAnd(SizeT(key), mask);
      ghost var c := chains[h];
      var e := new Entry<V>(key, val);
      e.next := tbl[h];
      tbl[h] := e;
      chains := chains[h := [e] + c];
      forall i | 0 <= i < |chains| ensures Links(tbl[i], chains[i]) {
        assert old(Links(tbl[i], chains[i]));
      }
      itr := Itr(e, null, h);
    }

    /** Links the predecessor that an iterator carries to what follows its entry; an iterator past the end
        is ignored. */
    method Del(itr: Itr<V>, ghost q: nat, ghost p: nat)
      requires Valid() && (itr.entry != null ==> Behind(itr, q, p))
      modifies tbl, this`chains, Entries()`next
      ensures Valid() && |chains| == |old(chains)|
      ensures itr.entry == null ==> chains == old(chains)
      ensures itr.entry != null ==>
                && itr.index < |chains| && q <= p < |old(chains)[itr.index]|
                && chains == old(chains)[itr.index := Cut(old(chains)[itr.index], q, p)]
    {
      if itr.entry == null {
        return;
      }
      Unlink(itr, q, p);
    }

    method Unlink(itr: Itr<V>, ghost q: nat, ghost p: nat)
      requires Valid() && Behind(itr, q, p) && itr.entry != null
      modifies tbl, this`chains, Entries()`next
      ensures Valid() && p < |old(chains)[itr.index]|
      ensures chains == old(chains)[itr.index := Cut(old(chains)[itr.index], q, p)]
    {
      ghost var h, c := itr.index, chains[itr.index];
      assert Links(tbl[h], c);
      assert itr.parent != null ==>
        itr.parent in chains[h] && forall i :: 0 <= i < |chains| && i != h ==> itr.parent !in chains[i];
      if itr.parent == null {
        tbl[itr.index] := itr.entry.next;
      } else {
        itr.parent.next := itr.entry.next;
      }
      CutNoDup(c, q, p);
      ghost var r := Cut(c, q, p);
      chains := chains[h := r];
      forall t | 0 <= t < |r| ensures r[t].next == After(r, t) {
        var u := if t < q then t else t + (p + 1 - q);
        assert r[t] == c[u] && old(c[u].next) == After(c, u);
      }
      forall i | 0 <= i < |chains| && i != h ensures Links(tbl[i], chains[i]) {
        assert old(Links(tbl[i], chains[i]));
        assert itr.parent == null || itr.parent !in chains[i];
      }
    }

    // ---------- the map from keys to stacks ----------

    /** find: the top of the stack, with its true position. */
    method Find(key: int) returns (itr: Itr<V>)
      requires Valid()
      ensures itr.entry == (if Stack(key) == [] then null else Stack(key)[0])
      ensures itr.index == Slot(key, mask) < |chains| && At(itr, FirstWith(chains[itr.index], key))
    {
      itr := Get(key);
      FirstIsTop(chains[itr.index], key);
    }

    method Contain(key: int) returns (b: bool)
      requires Valid()
      ensures b <==> Stack(key) != []
    {
      var itr := Find(key);
      b := itr.entry != null;
    }

    /** insert pushes a new entry on the stack of its key. */
    method Insert(key: int, val: V) returns (itr: Itr<V>)
      requires Valid()
      modifies tbl, this`chains
      ensures Valid() && fresh(itr.entry) && itr.entry.key == key && itr.entry.val == val
      ensures Entries() <= old(Entries()) + {itr.entry}
      ensures forall k :: Stack(k) == (if k == key then [itr.entry] else []) + old(Stack(k))
      ensures old(SnapValid()) ==> SnapValid()
      ensures itr.index < |chains| && At(itr, 0) && |chains| == |old(chains)|
    {
      itr := Set(key, val);
      AddEntry(old(chains), itr.index, chains[itr.index], itr.entry);
      forall k ensures Stack(k) == (if k == key then [itr.entry] else []) + old(Stack(k)) {
        MaskIsMod(SizeT(k), mask + 1);
        assert ([itr.entry] + old(chains)[itr.index])[1..] == old(chains)[itr.index];
      }
    }

    /** find_or_insert pushes a new entry only on an empty stack, and otherwise finds its top. */
    method FindOrInsert(key: int, val: V) returns (itr: Itr<V>)
      requires Valid()
      modifies tbl, this`chains, Entries()`next
      ensures Valid() && itr.entry != null && itr.entry.key == key && Stack(key) != [] && itr.entry == Stack(key)[0]
      ensures old(Stack(key)) == [] ==> fresh(itr.entry) && itr.entry.val == val && Stack(key) == [itr.entry]
      ensures old(Stack(key)) != [] ==> chains == old(chains) && Stack(key) == old(Stack(key))
      ensures forall k :: k != key ==> Stack(k) == old(Stack(k))
      ensures Entries() <= old(Entries()) + {itr.entry} && fresh(Entries() - old(Entries()))
      ensures old(SnapValid()) ==> SnapValid()
    {
      var exist;
      itr, exist := SetUniq(key, val);
      TopOfStack(old(chains), itr.index, key);
      if !exist {
        PushFirst(old(chains), itr.index, itr.entry);
      }
    }

    /** erase(key) pops the stack of key. */
    method Erase(key: int)
      requires Valid()
      modifies tbl, this`chains, Entries()`next
      ensures Valid()
      ensures Entries() <= old(Entries())
      ensures forall k :: Stack(k) == (if k == key && old(Stack(k)) != [] then old(Stack(k))[1..] else old(Stack(k)))
      ensures old(SnapValid()) && snap == null ==> SnapValid()
    {
      var itr := Find(key);
      ghost var h, before := itr.index, chains;
      FirstIsTop(before[h], key);
      Del(itr, FirstWith(before[h], key), FirstWith(before[h], key));
      if itr.entry != null {
        CutEntries(before, h, FirstWith(before[h], key), FirstWith(before[h], key));
        forall k ensures Stack(k) == (if k == key then StackOf(before, k)[1..] else StackOf(before, k)) {
          PopStack(before, h, key, k);
        }
      }
    }

    /** Since an earlier state with these chains, e and nothing else has left its stack. */
    ghost predicate OnlyLost(before: seq<seq<Entry<V>>>, e: Entry<V>)
      reads this`chains
      requires IsPow2(|chains|) && IsPow2(|before|)
    {
      && (forall k :: k != e.key ==> Stack(k) == StackOf(before, k))
      && Without(StackOf(before, e.key), e, Stack(e.key))
    }

    /** erase through an iterator cuts its chain from the entry behind the predecessor it carries up to its
        own; it removes exactly its own entry when, and only when, that is its own predecessor. */
    method EraseAt(itr: Itr<V>, ghost q: nat, ghost p: nat)
      requires Valid() && (itr.entry != null ==> Behind(itr, q, p))
      modifies tbl, this`chains, Entries()`next
      ensures Valid() && |chains| == |old(chains)| && Entries() <= old(Entries())
      ensures itr.entry == null ==> chains == old(chains)
      ensures itr.entry != null ==> itr.index < |chains| && q <= p < |old(chains)[itr.index]|
      ensures itr.entry != null ==> chains == old(chains)[itr.index := Cut(old(chains)[itr.index], q, p)]
      ensures itr.entry != null ==> (OnlyLost(old(chains), itr.entry) <==> q == p)
      ensures old(SnapValid()) && snap == null ==> SnapValid()
    {
      ghost var before, h := chains, itr.index;
      assert itr.entry != null ==> before[h][q] in before[h] && before[h][p] in before[h];
      Del(itr, q, p);
      if itr.entry != null {
        CutEntries(before, h, q, p);
        if q == p {
          CutOne(before, h, p, itr.entry);
        } else {
          CutMore(before, h, q, p);
        }
      }
    }

    lemma CutOne(before: seq<seq<Entry<V>>>, h: nat, p: nat, e: Entry<V>)
      requires IsPow2(|before|) && h < |before| && p < |before[h]| && before[h][p] == e
      requires h == Slot(e.key, |before| - 1) && chains == before[h := Cut(before[h], p, p)]
      ensures OnlyLost(before, e)
    {
      var c := before[h];
      assert Cut(c, p, p) == Remove(c, p);
      forall k | k != e.key ensures Stack(k) == StackOf(before, k) {
        MaskIsMod(SizeT(k), |before|);
        RemoveWithKey(c, p, k);
      }
      RemoveWithKey(c, p, e.key);
      WithKeyConcat(c[..p], c[p..], e.key);
      assert c == c[..p] + c[p..];
      var n := |WithKey(c[..p], e.key)|;
      assert StackOf(before, e.key)[n] == e && Stack(e.key) == Remove(StackOf(before, e.key), n);
    }

    lemma CutMore(before: seq<seq<Entry<V>>>, h: nat, q: nat, p: nat)
      requires IsPow2(|before|) && h < |before| && q < p < |before[h]|
      requires h == Slot(before[h][q].key, |before| - 1) == Slot(before[h][p].key, |before| - 1)
      requires chains == before[h := Cut(before[h], q, p)]
      ensures !OnlyLost(before, before[h][p])
    {
      var e, k := before[h][p], before[h][q].key;
      CutLoses(before[h], q, p);
      assert |Stack(k)| + (if k == e.key then 2 else 1) <= |StackOf(before, k)|;
    }

    /** clear empties every stack and drops the snapshot. */
    method Clear()
      requires Valid()
      modifies tbl, this`chains, this`snap, this`snapshot
      ensures Valid() && SnapValid() && snap == null
      ensures forall k :: Stack(k) == []
      ensures |chains| == |old(chains)| && forall i :: 0 <= i < |chains| ==> chains[i] == []
    {
      snap := null;
      snapshot := [];
      var i := 0;
      while i <= mask
        modifies tbl
        invariant i <= mask + 1
        invariant forall j :: 0 <= j < i ==> tbl[j] == null
      {
        if tbl[i] != null {
          tbl[i] := null;
        }
        i := i + 1;
      }
      chains := seq(mask + 1, _ => []);
      forall k ensures Stack(k) == [] {
        MaskIsMod(SizeT(k), mask + 1);
      }
    }

    // ---------- iteration ----------

    /** The entries that an iteration visits: the snapshot when there is one, otherwise all entries
        in bucket order. */
    ghost function Order(): seq<Entry<V>>
      reads this
    {
      if snap != null then snapshot else Flat(chains)
    }

    /** The iterator's bucket and predecessor are those of its entry. */
    ghost predicate InPlace(itr: Itr<V>)
      reads this`chains
    {
      itr.entry != null && exists p: nat :: At(itr, p)
    }

    /** The iterator carries the predecessor of the first entry with its key. */
    ghost predicate Topped(itr: Itr<V>)
      reads this`chains
    {
      itr.entry != null && exists p: nat ::
        itr.index < |chains| && Behind(itr, FirstWith(chains[itr.index], itr.entry.key), p)
    }

    /** No key has two entries. */
    ghost predicate UniqueKeys()
      reads this`chains
    {
      IsPow2(|chains|) && forall k :: |Stack(k)| <= 1
    }

    lemma EntriesOnce()
      requires Valid()
      ensures NoDup(Flat(chains))
    {
      FlatNoDup(chains);
    }

    /** The bucket of an entry and the predecessor of the first entry with the same key. */
    method Locate(x: Entry<V>) returns (index: nat, parent: Entry?<V>)
      requires Valid() && Slot(x.key, mask) < |chains| && x in chains[Slot(x.key, mask)]
      ensures index == Slot(x.key, mask) && Topped(Itr(x, parent, index))
      ensures UniqueKeys() ==> InPlace(Itr(x, parent, index))
    {
      index := BitAnd(SizeT(x.key), mask);
      ghost var c, n := chains[index], 0;
      var e: Entry?<V> := tbl[index];
      parent := null;
      assert c[0..] == c;
      FirstIsTop(c, x.key);
      WithKeyMembers(c, x.key, x);
      while e.key != x.key
        invariant n < |c| && Links(tbl[index], c)
        invariant e == c[n] && parent == (if n == 0 then null else c[n - 1])
        invariant FirstWith(c, x.key) == n + FirstWith(c[n..], x.key) < |c|
        decreases |c| - n
      {
        assert c[n].next == After(c, n) && c[n..][1..] == c[n + 1..];
        parent := e;
        e := e.next;
        n := n + 1;
      }
      assert At(Itr(e, parent, index), n);
      ghost var p: nat :| p < |c| && c[p] == x;
      assert Behind(Itr(x, parent, index), n, p);
      if UniqueKeys() {
        assert |Stack(x.key)| <= 1;
        assert e == x;
      }
    }

    /** The next bucket after i whose chain is not empty. */
    method NextChain(i: nat) returns (found: bool, k: nat)
      requires Valid() && i < mask
      ensures found ==> i < k <= mask && chains[k] != [] && tbl[k] != null
      ensures !found ==> k == mask + 1
      ensures forall l :: i < l < k ==> chains[l] == []
    {
      k := i + 1;
      while tbl[k] == null
        invariant i < k <= mask
        decreases mask - k
        invariant forall l :: i < l < k ==> chains[l] == []
      {
        assert Links(tbl[k], chains[k]);
        if k == mask {
          return false, mask + 1;
        }
        k := k + 1;
      }
      assert Links(tbl[k], chains[k]);
      found := true;
    }

    /** The first bucket whose chain is not empty; mask + 1 when there is none. */
    method FirstChain() returns (i: nat)
      requires Valid()
      ensures i <= mask + 1 && (i <= mask ==> chains[i] != [] && tbl[i] == chains[i][0])
      ensures forall l :: 0 <= l < i ==> chains[l] == []
    {
      i := 0;
      while i <= mask && tbl[i] == null
        invariant i <= mask + 1 && forall l :: 0 <= l < i ==> chains[l] == []
      {
        assert Links(tbl[i], chains[i]);
        i := i + 1;
      }
      assert i <= mask ==> Links(tbl[i], chains[i]);
    }

    /** begin: the first entry of the iteration order. */
    method Begin() returns (itr: Itr<V>)
      requires Valid() && SnapValid()
      ensures itr.entry == After(Order(), -1)
      ensures itr.entry != null && (snap == null || UniqueKeys()) ==> InPlace(itr)
      ensures snap != null ==> Topped(itr)
    {
      if snap != null {
        assert snapshot[0] in snapshot;
        var index, parent := Locate(snap);
        return Itr(snap, parent, index);
      }
      var i := FirstChain();
      FlatFirst(chains, i);
      if i <= mask {
        itr := Itr(tbl[i], null, i);
        assert At(itr, 0);
      } else {
        itr := Itr(null, null, i);
      }
    }

    /** The step of an iterator along the snapshot; past the last entry it stands at none. */
    method AdvanceSnap(itr: Itr<V>, ghost n: nat) returns (r: Itr<V>)
      requires Valid() && SnapValid() && snap != null
      requires n < |snapshot| && itr.entry == snapshot[n]
      ensures r.entry == After(snapshot, n)
      ensures r.entry != null ==> Topped(r) && (UniqueKeys() ==> InPlace(r))
    {
      assert snapshot[n].snap == After(snapshot, n);
      r := itr.(entry := itr.entry.snap);
      if r.entry != null {
        assert snapshot[n + 1] in snapshot;
        var index, parent := Locate(r.entry);
        r := r.(index := index, parent := parent);
      }
    }

    /** The step of an iterator along the chains. */
    method AdvanceChain(itr: Itr<V>, ghost n: nat) returns (code: int, r: Itr<V>)
      requires Valid() && itr.entry != null && InPlace(itr)
      requires n < |Flat(chains)| && itr.entry == Flat(chains)[n]
      ensures code == 0 || code == -1
      ensures code == -1 ==> n + 1 == |Flat(chains)|
      ensures code == 0 ==> n + 1 < |Flat(chains)| && r.entry == Flat(chains)[n + 1] && InPlace(r)
    {
      ghost var j: nat :| At(itr, j);
      ghost var i := itr.index;
      PlaceOf(itr, j, n);
      assert Links(tbl[i], chains[i]) && chains[i][j].next == After(chains[i], j);
      if itr.entry.next != null {
        FlatNext(chains, i, j, NextFilled(chains, i + 1));
        r := Itr(itr.entry.next, itr.entry, itr.index);
        assert At(r, j + 1);
        return 0, r;
      }
      if itr.index < mask {
        var found, k := NextChain(itr.index);
        FlatNext(chains, i, j, k);
        if !found {
          return -1, itr;
        }
        assert Links(tbl[k], chains[k]);
        r := Itr(tbl[k], null, k);
        assert At(r, 0);
        return 0, r;
      }
      FlatNext(chains, i, j, mask + 1);
      return -1, itr;
    }

    /** Moves an iterator from position n of the iteration order to the next one; -1 past the end. */
    method Advance(itr: Itr<V>, ghost n: nat) returns (code: int, r: Itr<V>)
      requires Valid() && SnapValid()
      requires itr.entry != null ==> n < |Order()| && itr.entry == Order()[n] && (snap == null ==> InPlace(itr))
      ensures code == 0 || code == -1
      ensures code == -1 ==> itr.entry == null || n + 1 == |Order()|
      ensures code == 0 ==> itr.entry != null && r.entry == After(Order(), n)
      ensures code == 0 && r.entry != null && (snap == null || UniqueKeys()) ==> InPlace(r)
      ensures code == 0 && r.entry != null && snap != null ==> Topped(r)
    {
      if itr.entry == null {
        code, r := -1, itr;
      } else if snap != null {
        code := 0;
        r := AdvanceSnap(itr, n);
      } else {
        code, r := AdvanceChain(itr, n);
      }
    }

    lemma PlaceOf(itr: Itr<V>, j: nat, n: nat)
      requires Valid() && At(itr, j) && itr.entry != null
      requires n < |Flat(chains)| && Flat(chains)[n] == itr.entry
      ensures j < |chains[itr.index]| && chains[itr.index][j] == itr.entry
      ensures n == |Flat(chains[..itr.index])| + j
    {
      FlatAt(chains, itr.index, j);
      EntriesOnce();
      SamePlace(Flat(chains), n, |Flat(chains[..itr.index])| + j);
    }

    /** operator++ */
    method Increment(itr: Itr<V>, ghost n: nat) returns (r: Itr<V>)
      requires Valid() && SnapValid()
      requires itr.entry != null ==> n < |Order()| && itr.entry == Order()[n] && (snap == null ==> InPlace(itr))
      ensures r.entry == (if itr.entry == null then null else After(Order(), n))
      ensures r.entry != null && (snap == null || UniqueKeys()) ==> InPlace(r)
      ensures r.entry != null && snap != null ==> Topped(r)
    {
      var code;
      code, r := Advance(itr, n);
      if code != 0 {
        r := r.(entry := null);
      }
    }

    /** The iterator of a loop over the table, at its n-th visit. */
    ghost predicate OnWalk(itr: Itr<V>, n: nat)
      reads this, tbl, Entries()`next, set e | e in snapshot
    {
      && Valid() && SnapValid() && n <= |Order()|
      && itr.entry == After(Order(), n - 1)
      && (itr.entry != null && snap == null ==> InPlace(itr))
    }

    /** One more visit. */
    method Visit(itr: Itr<V>, ghost n: nat) returns (r: Itr<V>)
      requires OnWalk(itr, n) && itr.entry != null
      ensures n < |Order()| && itr.entry == Order()[n] && OnWalk(r, n + 1)
    {
      r := Increment(itr, n);
    }

    /** size counts the entries that an iteration visits: all entries exactly when there is no snapshot or
        none of them is missing from it. */
    method Size() returns (n: nat)
      requires Valid() && SnapValid()
      ensures n == |Order()| <= |Flat(chains)|
      ensures n == |Flat(chains)| <==> snap == null || forall e :: e in Flat(chains) ==> e in snapshot
    {
      n := 0;
      var it := Begin();
      while it.entry != null
        invariant OnWalk(it, n)
        decreases |Order()| - n
      {
        it := Visit(it, n);
        n := n + 1;
      }
      SnapWithin();
    }

    lemma SnapWithin()
      requires Valid() && SnapValid()
      ensures |snapshot| <= |Flat(chains)|
      ensures |snapshot| == |Flat(chains)| <==> forall e :: e in Flat(chains) ==> e in snapshot
    {
      EntriesOnce();
      forall e | e in snapshot ensures e in Flat(chains) {
        FlatMembers(chains, e);
      }
      SameLength(snapshot, Flat(chains));
    }

    // ---------- snapshot and sort ----------

    /** The snapshot loop's state: cur is entry n of all, in bucket order, and those before it are linked. */
    ghost predicate Snapping(i: nat, j: nat, cur: Entry<V>, last: Entry<V>, all: seq<Entry<V>>, n: nat)
      reads this`chains, (set e | e in all)`snap
    {
      && i < |chains| && j < |chains[i]| && cur == chains[i][j]
      && n == |Flat(chains[..i])| + j && n < |all|
      && cur == all[n] && last == (if n == 0 then cur else all[n - 1])
      && forall t {:trigger all[t].snap} :: 0 <= t < n - 1 ==> all[t].snap == After(all, t)
    }

    /** The walk of the snapshot loop, without linking: the entry after cur in bucket order. */
    method NextEntry(i: nat, cur: Entry<V>, ghost j: nat) returns (found: bool, i': nat, next: Entry?<V>, ghost j': nat)
      requires Valid() && i < |chains| && j < |chains[i]| && cur == chains[i][j]
      ensures found <==> |Flat(chains[..i])| + j + 1 < |Flat(chains)|
      ensures found ==> i' < |chains| && j' < |chains[i']| && next == chains[i'][j']
                        && |Flat(chains[..i'])| + j' == |Flat(chains[..i])| + j + 1
    {
      assert Links(tbl[i], chains[i]) && chains[i][j].next == After(chains[i], j);
      i', j', next := i, j, cur.next;
      if next != null {
        FlatNext(chains, i, j, NextFilled(chains, i + 1));
        return true, i, next, j + 1;
      }
      if i < mask {
        found, i' := NextChain(i);
        FlatNext(chains, i, j, i');
        if !found {
          return false, i, null, j;
        }
        assert Links(tbl[i'], chains[i']);
        FlatAt(chains, i', 0);
        FlatAt(chains, i, j);
        EntriesOnce();
        SamePlace(Flat(chains), |Flat(chains[..i'])|, |Flat(chains[..i])| + j + 1);
        return true, i', tbl[i'], 0;
      }
      FlatNext(chains, i, j, mask + 1);
      found := false;
    }

    method LinkBehind(last: Entry<V>, cur: Entry<V>, ghost all: seq<Entry<V>>, ghost n: nat)
      requires NoDup(all) && n < |all| && cur == all[n] && last == (if n == 0 then cur else all[n - 1])
      requires forall t {:trigger all[t].snap} :: 0 <= t < n - 1 ==> all[t].snap == After(all, t)
      modifies last`snap
      ensures forall t {:trigger all[t].snap} :: 0 <= t < n ==> all[t].snap == After(all, t)
    {
      last.snap := cur;
    }

    /** One iteration: links cur behind last and finds the entry after it. */
    method SnapStep(i: nat, cur: Entry<V>, last: Entry<V>, ghost j: nat, ghost all: seq<Entry<V>>, ghost n: nat)
      returns (more: bool, i': nat, next: Entry<V>, ghost j': nat)
      requires Valid() && all == Flat(chains) && NoDup(all) && Snapping(i, j, cur, last, all, n)
      modifies last`snap
      ensures forall t {:trigger all[t].snap} :: 0 <= t < n ==> all[t].snap == After(all, t)
      ensures more ==> Snapping(i', j', next, cur, all, n + 1)
      ensures !more ==> n + 1 == |all|
    {
      LinkBehind(last, cur, all, n);
      next := cur;
      var e: Entry?<V>;
      more, i', e, j' := NextEntry(i, cur, j);
      if more {
        next := e;
        FlatAt(chains, i', j');
      }
    }

    /** All entries up to n are linked, the last of them aside. */
    ghost predicate LinkedTo(last: Entry<V>, all: seq<Entry<V>>, n: nat)
      reads (set e | e in all)`snap
    {
      && 0 < n <= |all| && last == all[n - 1]
      && forall t {:trigger all[t].snap} :: 0 <= t < n - 1 ==> all[t].snap == After(all, t)
    }

    /** The snapshot loop, from the first entry on. */
    method ThreadAll(i0: nat, first: Entry<V>, ghost all: seq<Entry<V>>)
      requires Valid() && all == Flat(chains) && NoDup(all) && (forall e :: e in all ==> e in Entries())
      requires Snapping(i0, 0, first, first, all, 0)
      modifies Entries()`snap
      ensures Valid() && Threads(first, all)
    {
      var i, cur, last := i0, first, first;
      ghost var j: nat, n: nat := 0, 0;
      var more := true;
      while more
        invariant if more then Snapping(i, j, cur, last, all, n) else n == |all| && LinkedTo(last, all, n)
        decreases |all| - n, more
      {
        assert last in all;
        var next;
        more, i, next, j := SnapStep(i, cur, last, j, all, n);
        last := cur;
        cur := next;
        n := n + 1;
      }
      assert last in all;
      last.snap := null;
    }

    /** snap threads all entries, in bucket order; on an empty table it leaves the snapshot alone. */
    method Snap()
      requires Valid()
      modifies this`snap, this`snapshot, Entries()`snap
      ensures Valid() && chains == old(chains)
      ensures Flat(chains) == [] ==> snap == old(snap) && snapshot == old(snapshot)
      ensures Flat(chains) != [] ==> SnapValid() && snap != null && snapshot == Flat(chains)
      ensures old(snap == null <==> snapshot == []) ==>
                (Order() == Flat(chains) <==> Flat(chains) != [] || old(snap) == null)
    {
      var i := FirstChain();
      if i > mask {
        FlatFirst(chains, i);
        return;
      }
      SnapFrom(i);
    }

    /** The snapshot of a table whose first chain that is not empty is i. */
    method SnapFrom(i: nat)
      requires Valid() && i <= mask && chains[i] != [] && tbl[i] == chains[i][0]
      requires forall l :: 0 <= l < i ==> chains[l] == []
      modifies this`snap, this`snapshot, Entries()`snap
      ensures Valid() && chains == old(chains) && Flat(chains) != []
      ensures SnapValid() && snap != null && snapshot == Flat(chains)
    {
      var first: Entry<V> := tbl[i];
      snap := first;
      snapshot := Flat(chains);
      SnapStart(i, first);
      ThreadAll(i, first, snapshot);
      AllStored();
    }

    lemma SnapStart(i: nat, first: Entry<V>)
      requires Valid() && i <= mask && chains[i] != [] && first == chains[i][0]
      requires forall l :: 0 <= l < i ==> chains[l] == []
      ensures Flat(chains) != [] && NoDup(Flat(chains)) && forall e :: e in Flat(chains) ==> e in Entries()
      ensures Snapping(i, 0, first, first, Flat(chains), 0)
    {
      AllStored();
      FlatFirst(chains, i);
      FlatSkip(chains, 0, i);
    }

    lemma AllStored()
      requires Valid()
      ensures NoDup(Flat(chains))
      ensures forall e :: e in Flat(chains) ==>
                e in Entries() && Slot(e.key, mask) < |chains| && e in chains[Slot(e.key, mask)]
    {
      EntriesOnce();
      forall e | e in Flat(chains)
        ensures e in Entries() && Slot(e.key, mask) < |chains| && e in chains[Slot(e.key, mask)]
      {
        FlatMembers(chains, e);
      }
    }

    /** sort orders the snapshot by key, stably; without a snapshot it does nothing. */
    method SortSnapshot() returns (ghost comps: nat)
      requires Valid() && SnapValid() && |snapshot| <= SIZE_T
      modifies this`snap, this`snapshot, (set e | e in snapshot)`snap
      ensures Valid() && SnapValid() && chains == old(chains)
      ensures snapshot == Sort(old(snapshot))
      ensures |snapshot| - 1 <= comps <= BitLen(|snapshot|) * |snapshot|
    {
      comps := 0;
      if snap == null {
        return;
      }
      ghost var s := snapshot;
      SortLength(s);
      SortNoDup(s);
      forall e | e in Sort(s) ensures e in s {
        SortMember(s, e);
      }
      snap, comps := SortSnap(snap, s);
      snapshot := Sort(s);
    }

    // ---------- copying ----------

    /** Every stack of this table mirrors what the first n entries of order have under its key. */
    ghost predicate Copied(order: seq<Entry<V>>, n: nat)
      reads *
    {
      && Valid() && n <= |order|
      && forall k :: Mirrors(Stack(k), WithKey(order[..n], k))
    }

    /** The copying loop of the copy constructor and of operator=: inserts every entry that an
        iteration of other visits, so that each stack comes out reversed. */
    method InsertAll(other: ChainHash<V>)
      requires Valid() && other.Valid() && other.SnapValid() && this != other && tbl != other.tbl
      requires forall i :: 0 <= i < |chains| ==> chains[i] == []
      modifies tbl, this`chains
      ensures Valid() && |chains| == |old(chains)|
      ensures forall k :: Mirrors(Stack(k), WithKey(old(other.Order()), k))
      ensures forall k :: FindsSame(Stack(k), other.Stack(k)) <==> other.KeepsFind(k)
    {
      ghost var order, n: nat := other.Order(), 0;
      var it := CopyStart(other);
      while it.entry != null
        invariant other.OnWalk(it, n) && other.Order() == order
        invariant Copied(order, n) && |chains| == |old(chains)|
        decreases |order| - n
      {
        it := CopyNext(other, it, order, n);
        n := n + 1;
      }
      assert order[..|order|] == order;
      other.CopyFindsAll(this);
    }

    method CopyStart(other: ChainHash<V>) returns (it: Itr<V>)
      requires Valid() && other.Valid() && other.SnapValid() && forall i :: 0 <= i < |chains| ==> chains[i] == []
      ensures Copied(other.Order(), 0) && other.OnWalk(it, 0)
    {
      it := other.Begin();
      CopiesNone(other.Order());
    }

    /** One iteration of the copying loop. */
    method CopyNext(other: ChainHash<V>, it: Itr<V>, ghost order: seq<Entry<V>>, ghost n: nat) returns (r: Itr<V>)
      requires this != other && tbl != other.tbl && Copied(order, n)
      requires other.OnWalk(it, n) && it.entry != null && other.Order() == order
      modifies tbl, this`chains
      ensures |chains| == |old(chains)| && Copied(order, n + 1)
      ensures other.OnWalk(r, n + 1) && other.Order() == order
    {
      r := other.Visit(it, n);
      forall k ensures Mirrors(Stack(k), WithKey(order[..n], k)) {
        assert Stack(k) == old(Stack(k));
        assert old(Mirrors(Stack(k), WithKey(order[..n], k)));
      }
      CopyEntry(it.entry, order, n);
    }

    lemma CopiesNone(order: seq<Entry<V>>)
      requires Valid() && forall i :: 0 <= i < |chains| ==> chains[i] == []
      ensures Copied(order, 0)
    {
      forall k ensures Stack(k) == [] {
        MaskIsMod(SizeT(k), mask + 1);
      }
    }

    method CopyEntry(e: Entry<V>, ghost order: seq<Entry<V>>, ghost n: nat)
      requires Valid() && n < |order| && e == order[n]
      requires forall k :: Mirrors(Stack(k), WithKey(order[..n], k))
      modifies tbl, this`chains
      ensures Valid() && |chains| == |old(chains)|
      ensures forall k :: Mirrors(Stack(k), WithKey(order[..n + 1], k))
    {
      var copy := Insert(e.key, e.val);
      forall k ensures Mirrors(Stack(k), WithKey(order[..n + 1], k)) {
        assert order[..n + 1] == order[..n] + [e];
        WithKeyConcat(order[..n], [e], k);
        assert old(Mirrors(Stack(k), WithKey(order[..n], k)));
        assert Mirrors(old(Stack(k)), WithKey(order[..n], k));
        if k == e.key {
          assert WithKey([e], k) == [e];
          MirrorsPush(old(Stack(k)), WithKey(order[..n], k), copy.entry, e);
        }
      }
    }

    /** The copy constructor: as many buckets, and every stack reversed. */
    constructor Copy(other: ChainHash<V>)
      requires other.Valid() && other.SnapValid() && other.mask < SIZE_T / 2
      ensures Valid() && SnapValid() && fresh(tbl) && mask == other.mask && snap == null
      ensures forall k :: Mirrors(Stack(k), WithKey(old(other.Order()), k))
      ensures forall k :: FindsSame(Stack(k), other.Stack(k)) <==> other.KeepsFind(k)
    {
      RoundFixed(other.mask + 1);
      mask := SmearedMask(other.mask + 1);
      tbl := new Entry?<V>[SmearedMask(other.mask + 1) + 1](_ => null);
      snap := null;
      chains := seq(SmearedMask(other.mask + 1) + 1, _ => []);
      snapshot := [];
      new;
      InsertAll(other);
    }

    /** operator= */
    method CopyFrom(other: ChainHash<V>)
      requires Valid() && other.Valid() && other.SnapValid() && (this != other ==> tbl != other.tbl)
      modifies tbl, this`chains, this`snap, this`snapshot
      ensures Valid() && SnapValid()
      ensures this != other ==> forall k :: Mirrors(Stack(k), WithKey(old(other.Order()), k))
      ensures this != other ==> forall k :: FindsSame(Stack(k), other.Stack(k)) <==> other.KeepsFind(k)
      ensures this == other ==> chains == old(chains) && snapshot == old(snapshot)
    {
      if other != this {
        Clear();
        InsertAll(other);
      }
    }

    /** A copy can answer for key as this table does: the key is absent, or the last of its entries that an
        iteration visits carries the value of the newest one. */
    ghost predicate KeepsFind(key: int)
      reads *
      requires IsPow2(|chains|)
    {
      var w := WithKey(Order(), key);
      Stack(key) == [] || (w != [] && w[|w| - 1].val == Stack(key)[0].val)
    }

    /** A copy finds for a key what this table finds exactly then. */
    lemma CopyFinds(copy: ChainHash<V>, key: int)
      requires Valid() && SnapValid() && IsPow2(|copy.chains|)
      requires Mirrors(copy.Stack(key), WithKey(Order(), key))
      ensures FindsSame(copy.Stack(key), Stack(key)) <==> KeepsFind(key)
      ensures var c, s, w := copy.Stack(key), Stack(key), WithKey(Order(), key);
              (c == [] <==> s == []) && (c != [] && s != [] ==> c[0].val == s[0].val)
              <==> s == [] || (w != [] && w[|w| - 1].val == s[0].val)
    {
      var c, w := copy.Stack(key), WithKey(Order(), key);
      OrderWithin(key);
      assert c != [] ==> c[0].val == w[|w| - 1].val;
    }

    /** Without a snapshot, that is when the newest and the oldest entry of the key carry the same value. */
    lemma KeepsFindOldest(key: int)
      requires Valid() && SnapValid() && snap == null
      ensures KeepsFind(key) <==> Stack(key) == [] || Stack(key)[|Stack(key)| - 1].val == Stack(key)[0].val
    {
      OrderIsStack(key);
    }

    lemma OrderIsStack(key: int)
      requires Valid() && snap == null
      ensures WithKey(Order(), key) == Stack(key)
    {
      MaskIsMod(SizeT(key), mask + 1);
      FlatWithKey(chains, Slot(key, mask), key);
    }

    /** An iteration visits no entry of an absent key. */
    lemma OrderWithin(key: int)
      requires Valid() && SnapValid()
      ensures Stack(key) == [] ==> WithKey(Order(), key) == []
    {
      MaskIsMod(SizeT(key), mask + 1);
      if WithKey(Order(), key) != [] {
        var e := WithKey(Order(), key)[0];
        WithKeyMembers(Order(), key, e);
        FlatMembers(chains, e);
        WithKeyMembers(chains[Slot(key, mask)], key, e);
      }
    }

    lemma CopyFindsAll(copy: ChainHash<V>)
      requires Valid() && SnapValid() && IsPow2(|copy.chains|)
      requires forall k :: Mirrors(copy.Stack(k), WithKey(Order(), k))
      ensures forall k :: FindsSame(copy.Stack(k), Stack(k)) <==> KeepsFind(k)
    {
      forall k ensures FindsSame(copy.Stack(k), Stack(k)) <==> KeepsFind(k) {
        CopyFinds(copy, k);
      }
    }
  }

  lemma MaskFits(min: nat)
    requires 0 < min <= SIZE_T / 2
    ensures SmearedMask(min) < SIZE_T / 2
  {
    SmearedMaskRounds(min);
    Pow2Of64();
    assert min <= Pow2(63);
  }

  lemma RoundFixed(n: nat)
    requires IsPow2(n) && n <= SIZE_T / 2
    ensures SmearedMask(n) + 1 == n
  {
    Pow2Double(n);
    SmearedMaskRounds(n);
    var k: nat :| Pow2(k) == n;
  }

  /** The first chain at i or after it that is not empty. */
  ghost function NextFilled<T>(chains: seq<seq<T>>, i: nat): (k: nat)
    requires i <= |chains|
    ensures i <= k <= |chains| && (forall l :: i <= l < k ==> chains[l] == []) && (k < |chains| ==> chains[k] != [])
    decreases |chains| - i
  {
    if i == |chains| || chains[i] != [] then i else NextFilled(chains, i + 1)
  }
}
