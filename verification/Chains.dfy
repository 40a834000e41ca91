/** The chains of the table as values: positions, stacks of equal keys, and bucket order. */
module Chains {
  import opened StableSort

  /** The first position of key in a chain, or the length of the chain. */
  ghost function FirstWith<V>(s: seq<Entry<V>>, key: int): (n: nat)
    ensures n <= |s|
    ensures n < |s| ==> s[n].key == key
    ensures forall i :: 0 <= i < n ==> s[i].key != key
  {
    if s == [] || s[0].key == key then 0 else 1 + FirstWith(s[1..], key)
  }

  ghost function Remove<T>(s: seq<T>, n: nat): seq<T>
    requires n < |s|
  {
    s[..n] + s[n + 1..]
  }

  /** The positions from q to p fall away; Remove is the case of one position. */
  ghost function Cut<T>(s: seq<T>, q: nat, p: nat): seq<T>
    requires q <= p < |s|
  {
    s[..q] + s[p + 1..]
  }

  /** The entry ahead of position n. */
  ghost function Pred<V>(s: seq<Entry<V>>, n: nat): Entry?<V>
    requires n <= |s|
  {
    if n == 0 then null else s[n - 1]
  }

  /** The first position of a key is the top of its stack. */
  lemma {:induction false} FirstIsTop<V>(s: seq<Entry<V>>, key: int)
    ensures FirstWith(s, key) < |s| <==> WithKey(s, key) != []
    ensures FirstWith(s, key) < |s| ==> s[FirstWith(s, key)] == WithKey(s, key)[0]
  {
    if s != [] { FirstIsTop(s[1..], key); }
  }

  /** Removing an entry removes it from its stack and from no other. */
  lemma {:induction false} RemoveWithKey<V>(s: seq<Entry<V>>, n: nat, k: int)
    requires n < |s|
    ensures s[n].key != k ==> WithKey(Remove(s, n), k) == WithKey(s, k)
    ensures s[n].key == k ==> |WithKey(s[..n], k)| < |WithKey(s, k)|
    ensures s[n].key == k ==> WithKey(Remove(s, n), k) == Remove(WithKey(s, k), |WithKey(s[..n], k)|)
  {
    WithKeyConcat(s[..n], s[n + 1..], k);
    WithKeyConcat(s[..n], s[n..], k);
    assert s == s[..n] + s[n..] && s[n..][1..] == s[n + 1..];
    if s[n].key == k {
      assert WithKey(s, k) == WithKey(s[..n], k) + ([s[n]] + WithKey(s[n + 1..], k));
    }
  }

  /** Removing the first entry with a key pops its stack. */
  lemma PopFirst<V>(s: seq<Entry<V>>, key: int, k: int)
    requires FirstWith(s, key) < |s|
    ensures WithKey(s, key) != []
    ensures WithKey(Remove(s, FirstWith(s, key)), k) == (if k == key then WithKey(s, k)[1..] else WithKey(s, k))
  {
    var n := FirstWith(s, key);
    FirstIsTop(s, key);
    RemoveWithKey(s, n, k);
    if k == key {
      WithKeyAbsent(s[..n], key);
    }
  }

  lemma CutNoDup<T>(s: seq<T>, q: nat, p: nat)
    requires q <= p < |s| && NoDup(s)
    ensures NoDup(Cut(s, q, p))
    ensures forall x :: x in Cut(s, q, p) ==> x in s
  {
  }

  /** Cutting more than one position costs some stack more than the entry at p: that of the entry at q
      loses an entry, and loses two when it is the same stack. */
  lemma CutLoses<V>(s: seq<Entry<V>>, q: nat, p: nat)
    requires q < p < |s|
    ensures |WithKey(Cut(s, q, p), s[q].key)| + (if s[q].key == s[p].key then 2 else 1) <= |WithKey(s, s[q].key)|
  {
    var k := s[q].key;
    WithKeyConcat(s[..q], s[p + 1..], k);
    WithKeyConcat(s[..q], s[q..], k);
    WithKeyConcat(s[q..p], s[p..], k);
    assert s == s[..q] + s[q..] && s[q..] == s[q..p] + s[p..];
    assert s[q..p][0] == s[q] && s[p..][0] == s[p] && s[p..][1..] == s[p + 1..];
  }

  // ---------- bucket order ----------

  /** All entries in bucket order. */
  ghost function Flat<T>(chains: seq<seq<T>>): seq<T> {
    if chains == [] then [] else Flat(chains[..|chains| - 1]) + chains[|chains| - 1]
  }

  lemma FlatOne<T>(chains: seq<seq<T>>)
    requires |chains| == 1
    ensures Flat(chains) == chains[0]
  {
    assert chains[..0] == [];
    assert Flat(chains) == [] + chains[0];
  }

  lemma {:induction false} FlatPrefix<T>(chains: seq<seq<T>>, i: nat)
    requires i <= |chains|
    ensures Flat(chains[..i]) <= Flat(chains)
    ensures i < |chains| ==> Flat(chains[..i]) + chains[i] <= Flat(chains)
  {
    var n := |chains| - 1;
    if i == |chains| {
      assert chains[..i] == chains;
    } else if i < n {
      FlatPrefix(chains[..n], i);
      assert chains[..n][..i] == chains[..i];
    }
  }

  /** The entry at position j of chain i comes after those of the earlier chains. */
  lemma FlatAt<T>(chains: seq<seq<T>>, i: nat, j: nat)
    requires i < |chains| && j < |chains[i]|
    ensures |Flat(chains[..i])| + j < |Flat(chains)|
    ensures Flat(chains)[|Flat(chains[..i])| + j] == chains[i][j]
    ensures Flat(chains)[..|Flat(chains[..i])| + j] == Flat(chains[..i]) + chains[i][..j]
  {
    FlatPrefix(chains, i);
    var p := Flat(chains[..i]) + chains[i];
    assert p[|Flat(chains[..i])| + j] == chains[i][j];
  }

  lemma {:induction false} FlatSkip<T>(chains: seq<seq<T>>, i: nat, k: nat)
    requires i <= k <= |chains| && forall l :: i <= l < k ==> chains[l] == []
    ensures Flat(chains[..i]) == Flat(chains[..k])
  {
    if i < k {
      FlatSkip(chains, i, k - 1);
      assert chains[..k][..k - 1] == chains[..k - 1];
    }
  }

  lemma {:induction false} FlatMembers<T>(chains: seq<seq<T>>, x: T)
    ensures x in Flat(chains) <==> exists i :: 0 <= i < |chains| && x in chains[i]
  {
    if chains != [] {
      FlatMembers(chains[..|chains| - 1], x);
    }
  }

  /** Every entry occurs once in bucket order when chains are free of repetitions and disjoint. */
  lemma {:induction false} FlatNoDup<T>(chains: seq<seq<T>>)
    requires forall i :: 0 <= i < |chains| ==> NoDup(chains[i])
    requires forall i, j, x :: 0 <= i < j < |chains| && x in chains[i] ==> x !in chains[j]
    ensures NoDup(Flat(chains))
  {
    if chains != [] {
      var n := |chains| - 1;
      FlatNoDup(chains[..n]);
      forall x | x in Flat(chains[..n]) ensures x !in chains[n] {
        FlatMembers(chains[..n], x);
        var i :| 0 <= i < n && x in chains[..n][i];
        assert x in chains[i];
      }
      NoDupConcat(Flat(chains[..n]), chains[n]);
    }
  }

  lemma NoDupConcat<T>(a: seq<T>, b: seq<T>)
    requires NoDup(a) && NoDup(b) && forall x :: x in a ==> x !in b
    ensures NoDup(a + b)
  {
    forall i, j | 0 <= i < j < |a + b| ensures (a + b)[i] != (a + b)[j] {
      if i < |a| <= j {
        assert a[i] in a && b[j - |a|] in b;
      }
    }
  }

  /** In bucket order the entries with one key keep the order of their chain. */
  lemma {:induction false} FlatWithKey<V>(chains: seq<seq<Entry<V>>>, slot: nat, key: int)
    requires slot < |chains|
    requires forall i, e :: 0 <= i < |chains| && i != slot && e in chains[i] ==> e.key != key
    ensures WithKey(Flat(chains), key) == WithKey(chains[slot], key)
  {
    var n := |chains| - 1;
    WithKeyConcat(Flat(chains[..n]), chains[n], key);
    if slot == n {
      forall e | e in Flat(chains[..n]) ensures e.key != key {
        FlatMembers(chains[..n], e);
      }
      WithKeyAbsent(Flat(chains[..n]), key);
    } else {
      FlatWithKey(chains[..n], slot, key);
      WithKeyAbsent(chains[n], key);
    }
  }

  /** What follows position j of chain i in bucket order: the next entry of the chain, or the first
      one of the next chain k that is not empty. */
  lemma FlatNext<T>(chains: seq<seq<T>>, i: nat, j: nat, k: nat)
    requires i < |chains| && j < |chains[i]|
    requires i < k <= |chains| && (forall l :: i < l < k ==> chains[l] == []) && (k < |chains| ==> chains[k] != [])
    ensures |Flat(chains[..i])| + j < |Flat(chains)|
    ensures var n := |Flat(chains[..i])| + j + 1;
            if j + 1 < |chains[i]| then n < |Flat(chains)| && Flat(chains)[n] == chains[i][j + 1]
            else if k < |chains| then n < |Flat(chains)| && Flat(chains)[n] == chains[k][0]
            else n == |Flat(chains)|
  {
    FlatAt(chains, i, j);
    if j + 1 < |chains[i]| {
      FlatAt(chains, i, j + 1);
    } else {
      assert chains[..i + 1][..i] == chains[..i];
      FlatSkip(chains, i + 1, k);
      if k < |chains| {
        FlatAt(chains, k, 0);
      } else {
        assert chains[..k] == chains;
      }
    }
  }

  /** The first entry in bucket order heads the first chain that is not empty. */
  lemma FlatFirst<T>(chains: seq<seq<T>>, k: nat)
    requires k <= |chains| && (forall l :: 0 <= l < k ==> chains[l] == []) && (k < |chains| ==> chains[k] != [])
    ensures if k < |chains| then Flat(chains) != [] && Flat(chains)[0] == chains[k][0] else Flat(chains) == []
  {
    FlatSkip(chains, 0, k);
    if k < |chains| {
      FlatAt(chains, k, 0);
    } else {
      assert chains[..k] == chains;
    }
  }

  /** An entry's place in bucket order is unique. */
  lemma SamePlace<T>(s: seq<T>, m: nat, n: nat)
    requires NoDup(s) && m < |s| && n < |s| && s[m] == s[n]
    ensures m == n
  {
  }

  ghost function Elements<T>(s: seq<T>): set<T> {
    set x | x in s
  }

  lemma {:induction false} NoDupSize<T>(s: seq<T>)
    requires NoDup(s)
    ensures |Elements(s)| == |s|
  {
    if s != [] {
      var n := |s| - 1;
      NoDupSize(s[..n]);
      assert Elements(s) == Elements(s[..n]) + {s[n]};
    }
  }

  /** Of two repetition-free lists, one within the other, the lengths are equal exactly when so are the
      elements. */
  lemma SameLength<T>(a: seq<T>, b: seq<T>)
    requires NoDup(a) && NoDup(b) && forall x :: x in a ==> x in b
    ensures |a| <= |b| && (|a| == |b| <==> forall x :: x in b ==> x in a)
  {
    NoDupSize(a);
    NoDupSize(b);
    var rest := Elements(b) - Elements(a);
    assert Elements(b) == Elements(a) + rest;
    assert |rest| == 0 <==> rest == {};
    if forall x :: x in b ==> x in a {
      assert rest == {};
    } else {
      var x :| x in b && x !in a;
      assert x in rest;
    }
  }

  // ---------- copying ----------

  /** Stacks a and b answer a lookup alike. */
  ghost predicate FindsSame<V>(a: seq<Entry<V>>, b: seq<Entry<V>>)
    reads (set e | e in a)`val, (set e | e in b)`val
  {
    (a == [] <==> b == []) && (a != [] ==> a[0].val == b[0].val)
  }

  /** s carries the values of t, last to first. */
  ghost predicate Mirrors<V>(s: seq<Entry<V>>, t: seq<Entry<V>>)
    reads (set e | e in s)`val, (set e | e in t)`val
  {
    |s| == |t| && forall j {:trigger s[j].val} :: 0 <= j < |s| ==> s[j].val == t[|t| - 1 - j].val
  }

  lemma MirrorsPush<V>(s: seq<Entry<V>>, t: seq<Entry<V>>, x: Entry<V>, y: Entry<V>)
    requires Mirrors(s, t) && x.val == y.val
    ensures Mirrors([x] + s, t + [y])
  {
    var u, v := [x] + s, t + [y];
    forall j | 0 <= j < |u| ensures u[j].val == v[|v| - 1 - j].val {
      if j > 0 {
        assert u[j] == s[j - 1] && v[|v| - 1 - j] == t[|t| - j] && s[j - 1].val == t[|t| - j].val;
      }
    }
  }
}
