/** The entries of the chained table and the specification of its sort: the stable sort by key. */
module StableSort {

  /** An entry with its two independent links: next along its chain, snap along the snapshot. */
  class Entry<V> {
    const key: int
    var val: V
    var next: Entry?<V>
    var snap: Entry?<V>

    constructor (key: int, val: V)
      ensures this.key == key && this.val == val && next == null && snap == null
    {
      this.key := key;
      this.val := val;
      next, snap := null, null;
    }
  }

  function Cmp(a: int, b: int): int {
    (if a > b then 1 else 0) - (if a < b then 1 else 0)
  }

  ghost predicate Sorted<V>(s: seq<Entry<V>>) {
    forall i, j :: 0 <= i < j < |s| ==> s[i].key <= s[j].key
  }

  ghost predicate NoDup<T>(s: seq<T>) {
    forall i, j :: 0 <= i < j < |s| ==> s[i] != s[j]
  }

  /** The entries with the given key, in order. */
  ghost function WithKey<V>(s: seq<Entry<V>>, key: int): seq<Entry<V>> {
    if s == [] then [] else (if s[0].key == key then [s[0]] else []) + WithKey(s[1..], key)
  }

  /** x placed ahead of the first entry whose key is not smaller. */
  ghost function Insert<V>(x: Entry<V>, s: seq<Entry<V>>): seq<Entry<V>> {
    if s == [] || x.key <= s[0].key then [x] + s else [s[0]] + Insert(x, s[1..])
  }

  /** Insertion sort from the right: the reference that the merge sort is proved against. */
  ghost function Sort<V>(s: seq<Entry<V>>): seq<Entry<V>> {
    if s == [] then [] else Insert(s[0], Sort(s[1..]))
  }

  function Merge<V>(a: seq<Entry<V>>, b: seq<Entry<V>>): seq<Entry<V>> {
    if a == [] then b
    else if b == [] then a
    else if Cmp(a[0].key, b[0].key) <= 0 then [a[0]] + Merge(a[1..], b)
    else [b[0]] + Merge(a, b[1..])
  }

  lemma {:induction false} InsertContents<V>(x: Entry<V>, s: seq<Entry<V>>)
    ensures multiset(Insert(x, s)) == multiset(s) + multiset{x}
  {
    if s != [] && x.key > s[0].key {
      assert s == [s[0]] + s[1..];
      InsertContents(x, s[1..]);
    }
  }

  /** The sort permutes the entries. */
  lemma {:induction false} SortContents<V>(s: seq<Entry<V>>)
    ensures multiset(Sort(s)) == multiset(s)
    ensures |Sort(s)| == |s|
  {
    if s != [] {
      assert s == [s[0]] + s[1..];
      SortContents(s[1..]);
      InsertContents(s[0], Sort(s[1..]));
    }
    SameSize(Sort(s), s);
  }

  lemma SameSize<T>(s: seq<T>, t: seq<T>)
    requires multiset(s) == multiset(t)
    ensures |s| == |t|
  {
    assert |multiset(s)| == |s| && |multiset(t)| == |t|;
  }

  lemma {:induction false} MergeMembers<V>(a: seq<Entry<V>>, b: seq<Entry<V>>, x: Entry<V>)
    ensures x in Merge(a, b) <==> x in a || x in b
  {
    if a == [] || b == [] {
    } else if Cmp(a[0].key, b[0].key) <= 0 {
      MergeMembers(a[1..], b, x);
    } else {
      MergeMembers(a, b[1..], x);
    }
  }

  // ---------- what the stable sort means ----------

  lemma SortedCons<V>(x: Entry<V>, s: seq<Entry<V>>)
    requires Sorted(s) && forall y :: y in s ==> x.key <= y.key
    ensures Sorted([x] + s)
  {
  }

  lemma {:induction false} InsertSorted<V>(x: Entry<V>, s: seq<Entry<V>>)
    requires Sorted(s)
    ensures Sorted(Insert(x, s))
  {
    if s == [] || x.key <= s[0].key {
    } else {
      InsertSorted(x, s[1..]);
      forall y | y in Insert(x, s[1..]) ensures s[0].key <= y.key {
        InsertContents(x, s[1..]);
        assert y in multiset(s[1..]) + multiset{x};
      }
      SortedCons(s[0], Insert(x, s[1..]));
    }
  }

  lemma WithKeyCons<V>(x: Entry<V>, s: seq<Entry<V>>, key: int)
    ensures WithKey([x] + s, key) == (if x.key == key then [x] else []) + WithKey(s, key)
  {
    assert ([x] + s)[1..] == s;
  }

  lemma {:induction false} InsertWithKey<V>(x: Entry<V>, s: seq<Entry<V>>, key: int)
    requires Sorted(s)
    ensures WithKey(Insert(x, s), key) == (if x.key == key then [x] else []) + WithKey(s, key)
  {
    if s == [] || x.key <= s[0].key {
      WithKeyCons(x, s, key);
    } else {
      InsertWithKey(x, s[1..], key);
      WithKeyCons(s[0], Insert(x, s[1..]), key);
      WithKeyCons(s[0], s[1..], key);
      assert s == [s[0]] + s[1..];
    }
  }

  /** The sort orders the entries by key and keeps entries with the same key in order. */
  lemma {:induction false} SortIsStable<V>(s: seq<Entry<V>>)
    ensures Sorted(Sort(s)) && forall i, j :: 0 <= i < j < |Sort(s)| ==> Sort(s)[i].key <= Sort(s)[j].key
    ensures forall key :: WithKey(Sort(s), key) == WithKey(s, key)
  {
    if s != [] {
      SortIsStable(s[1..]);
      InsertSorted(s[0], Sort(s[1..]));
      forall key ensures WithKey(Sort(s), key) == WithKey(s, key) {
        InsertWithKey(s[0], Sort(s[1..]), key);
      }
    }
  }

  lemma {:induction false} WithKeyMembers<V>(s: seq<Entry<V>>, key: int, x: Entry<V>)
    ensures x in WithKey(s, key) <==> x in s && x.key == key
  {
    if s != [] { WithKeyMembers(s[1..], key, x); }
  }

  lemma WithKeyTail<V>(s: seq<Entry<V>>, key: int)
    requires s != []
    ensures WithKey(s[1..], key) == (if s[0].key == key then WithKey(s, key)[1..] else WithKey(s, key))
  {
  }

  /** Order and stability leave only one result. */
  lemma {:induction false} StableIsUnique<V>(a: seq<Entry<V>>, b: seq<Entry<V>>)
    requires Sorted(a) && Sorted(b)
    requires forall key :: WithKey(a, key) == WithKey(b, key)
    ensures a == b
  {
    if a != [] {
      SameHeads(a, b);
      SameTails(a, b);
      StableIsUnique(a[1..], b[1..]);
      assert a == [a[0]] + a[1..] && b == [b[0]] + b[1..];
    } else if b != [] {
      SameHeads(b, a);
    }
  }

  lemma SameHeads<V>(a: seq<Entry<V>>, b: seq<Entry<V>>)
    requires Sorted(a) && Sorted(b) && a != []
    requires forall key :: WithKey(a, key) == WithKey(b, key)
    ensures b != [] && a[0] == b[0]
  {
    WithKeyMembers(a, a[0].key, a[0]);
    WithKeyMembers(b, a[0].key, a[0]);
    WithKeyMembers(a, b[0].key, b[0]);
    WithKeyMembers(b, b[0].key, b[0]);
    assert a[0].key == b[0].key;
    assert WithKey(a, a[0].key)[0] == a[0] && WithKey(b, b[0].key)[0] == b[0];
  }

  lemma SameTails<V>(a: seq<Entry<V>>, b: seq<Entry<V>>)
    requires a != [] && b != [] && a[0] == b[0]
    requires forall key :: WithKey(a, key) == WithKey(b, key)
    ensures forall key :: WithKey(a[1..], key) == WithKey(b[1..], key)
  {
    forall key ensures WithKey(a[1..], key) == WithKey(b[1..], key) {
      WithKeyTail(a, key);
      WithKeyTail(b, key);
    }
  }

  // ---------- merging ----------

  lemma {:induction false} MergeSorted<V>(a: seq<Entry<V>>, b: seq<Entry<V>>)
    requires Sorted(a) && Sorted(b)
    ensures Sorted(Merge(a, b))
  {
    if a == [] || b == [] {
    } else if a[0].key <= b[0].key {
      MergeSorted(a[1..], b);
      forall y | y in Merge(a[1..], b) ensures a[0].key <= y.key {
        MergeMembers(a[1..], b, y);
      }
      SortedCons(a[0], Merge(a[1..], b));
    } else {
      MergeSorted(a, b[1..]);
      forall y | y in Merge(a, b[1..]) ensures b[0].key <= y.key {
        MergeMembers(a, b[1..], y);
      }
      SortedCons(b[0], Merge(a, b[1..]));
    }
  }

  lemma {:induction false} WithKeyAbsent<V>(s: seq<Entry<V>>, key: int)
    requires forall x :: x in s ==> x.key != key
    ensures WithKey(s, key) == []
  {
    if s != [] { WithKeyAbsent(s[1..], key); }
  }

  lemma {:induction false} WithKeyAll<V>(s: seq<Entry<V>>, key: int)
    requires forall x :: x in s ==> x.key == key
    ensures WithKey(s, key) == s
  {
    if s != [] { WithKeyAll(s[1..], key); }
  }

  lemma {:induction false} MergeWithKey<V>(a: seq<Entry<V>>, b: seq<Entry<V>>, key: int)
    requires Sorted(a) && Sorted(b)
    ensures WithKey(Merge(a, b), key) == WithKey(a, key) + WithKey(b, key)
  {
    if a == [] || b == [] {
    } else if a[0].key <= b[0].key {
      MergeWithKey(a[1..], b, key);
      WithKeyCons(a[0], Merge(a[1..], b), key);
    } else {
      MergeWithKey(a, b[1..], key);
      WithKeyCons(b[0], Merge(a, b[1..]), key);
      if b[0].key == key {
        WithKeyAbsent(a, key);
      }
    }
  }

  lemma {:induction false} WithKeyConcat<V>(a: seq<Entry<V>>, b: seq<Entry<V>>, key: int)
    ensures WithKey(a + b, key) == WithKey(a, key) + WithKey(b, key)
  {
    if a == [] {
      assert a + b == b;
    } else {
      var head := if a[0].key == key then [a[0]] else [];
      assert (a + b)[0] == a[0] && (a + b)[1..] == a[1..] + b;
      assert WithKey(a + b, key) == head + WithKey(a[1..] + b, key);
      WithKeyConcat(a[1..], b, key);
      assert WithKey(a, key) == head + WithKey(a[1..], key);
    }
  }

  /** Merging two sorted runs sorts their concatenation. */
  lemma MergeSorts<V>(a: seq<Entry<V>>, b: seq<Entry<V>>)
    ensures Merge(Sort(a), Sort(b)) == Sort(a + b)
  {
    SortIsStable(a);
    SortIsStable(b);
    SortIsStable(a + b);
    MergeSorted(Sort(a), Sort(b));
    forall key ensures WithKey(Merge(Sort(a), Sort(b)), key) == WithKey(Sort(a + b), key) {
      MergeWithKey(Sort(a), Sort(b), key);
      WithKeyConcat(a, b, key);
    }
    StableIsUnique(Merge(Sort(a), Sort(b)), Sort(a + b));
  }

  lemma SortMember<V>(s: seq<Entry<V>>, x: Entry<V>)
    ensures x in Sort(s) <==> x in s
  {
    SortContents(s);
    assert x in multiset(Sort(s)) <==> x in multiset(s);
  }

  lemma SortLength<V>(s: seq<Entry<V>>)
    ensures |Sort(s)| == |s|
  {
    SortContents(s);
  }

  lemma SortNoDup<V>(s: seq<Entry<V>>)
    requires NoDup(s)
    ensures NoDup(Sort(s))
  {
    SortContents(s);
    NoDupOfMultiset(s, Sort(s));
  }

  lemma NoDupOfMultiset<T>(s: seq<T>, t: seq<T>)
    requires multiset(s) == multiset(t) && NoDup(s)
    ensures NoDup(t)
  {
    forall i, j | 0 <= i < j < |t| ensures t[i] != t[j] {
      if t[i] == t[j] {
        assert t == t[..i] + [t[i]] + t[i + 1..j] + [t[j]] + t[j + 1..];
        assert multiset(t)[t[i]] >= 2;
        assert multiset(s)[t[i]] >= 2;
        NoDupCount(s, t[i]);
      }
    }
  }

  lemma {:induction false} NoDupCount<T>(s: seq<T>, x: T)
    requires NoDup(s)
    ensures multiset(s)[x] <= 1
  {
    if s != [] {
      NoDupCount(s[1..], x);
      assert s == [s[0]] + s[1..];
    }
  }
}
