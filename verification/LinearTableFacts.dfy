/** What every operation of the open-addressing table keeps, and what each one does to lookups.
    All facts here hold for every reachable table, including those where a key occupies two buckets. */
module LinearTableFacts {
  import opened Bits
  import opened Counting
  import opened LinearTable
  import opened Options

  /** No empty cell lies on the probe path from the home of the key in bucket i to that bucket. */
  ghost predicate Reached<K, V>(hash: K -> nat, cells: seq<Cell<K, V>>, i: nat)
    requires i < |cells|
  {
    cells[i].Live? ==>
      forall j :: 0 <= j < |cells| && cells[j].Empty? ==>
        Dist(|cells|, Home(hash, cells[i].key, |cells|), i) < Dist(|cells|, Home(hash, cells[i].key, |cells|), j)
  }

  ghost predicate Chained<K, V>(hash: K -> nat, cells: seq<Cell<K, V>>) {
    forall i {:trigger Reached(hash, cells, i)} :: 0 <= i < |cells| ==> Reached(hash, cells, i)
  }

  /** The structural invariant. */
  ghost predicate Ok<K, V>(hash: K -> nat, t: Table<K, V>) {
    && (t.cells != [] ==> IsPow2(|t.cells|))
    && t.size == Count(t.cells, IsLive)
    && t.used == Count(t.cells, IsUsed)
    && t.used <= ResizeCount(|t.cells|)
    && Chained(hash, t.cells)
  }

  ghost predicate Holds<K, V>(cells: seq<Cell<K, V>>, i: nat, key: K) {
    i < |cells| && cells[i].Live? && cells[i].key == key
  }

  ghost predicate HasKey<K, V>(cells: seq<Cell<K, V>>, key: K) {
    exists i: nat :: Holds(cells, i, key)
  }

  /** No key occupies two buckets. */
  ghost predicate Unique<K, V>(cells: seq<Cell<K, V>>) {
    forall i, j ::
      0 <= i < |cells| && 0 <= j < |cells| && cells[i].Live? && cells[j].Live? && cells[i].key == cells[j].key
      ==> i == j
  }

  ghost predicate NoErased<K, V>(cells: seq<Cell<K, V>>) {
    forall i :: 0 <= i < |cells| ==> !cells[i].Erased?
  }

  // ---------- thresholds ----------

  /** The growth threshold leaves a free bucket, doubling raises it, and halving a table that is
      below its shrink threshold leaves room for what it stores. */
  lemma Thresholds(n: nat)
    requires n > 0
    ensures ResizeCount(n) < n
    ensures ResizeCount(n) < ResizeCount(2 * n)
    ensures n >= 2 && n % 2 == 0 ==> ShrinkCount(n) <= ResizeCount(n / 2)
    ensures ResizeCount(8) == 6
  {
  }

  /** The thresholds are the rounded-down products with the single-precision factors. */
  lemma Factors(n: nat)
    requires n > 0
    ensures ResizeCount(n) * 16777216 <= n * 14260634 < (ResizeCount(n) + 1) * 16777216
    ensures ShrinkCount(n) * 67108864 <= n * 13421773 < (ShrinkCount(n) + 1) * 67108864
  {
  }

  lemma HasEmpty<K, V>(hash: K -> nat, t: Table<K, V>) returns (e: nat)
    requires Ok(hash, t) && t.cells != []
    ensures e < |t.cells| && t.cells[e].Empty?
  {
    Thresholds(|t.cells|);
    e := CountGap(t.cells, IsUsed);
  }

  /** A probe yields the first slot in probe order where it stops. */
  lemma {:induction false} ProbeIsFirst<K, V>(cells: seq<Cell<K, V>>, home: nat, key: K, setting: bool, d: nat)
    requires home < |cells| && d <= |cells|
    ensures var i := Probe(cells, home, key, setting, d);
            i < |cells| ==> Stops(cells[i], key, setting) && d <= Dist(|cells|, home, i)
    ensures var i := Probe(cells, home, key, setting, d);
            forall j :: 0 <= j < |cells| && d <= Dist(|cells|, home, j) && Stops(cells[j], key, setting)
                        ==> i < |cells| && Dist(|cells|, home, i) <= Dist(|cells|, home, j)
    decreases |cells| - d
  {
    if d < |cells| && !Stops(cells[Slot(|cells|, home, d)], key, setting) {
      ProbeIsFirst(cells, home, key, setting, d + 1);
      SlotIsUnique(|cells|, home, d);
    }
  }

  lemma SlotIsUnique(n: nat, home: nat, d: nat)
    requires home < n && d < n
    ensures forall j :: 0 <= j < n && Dist(n, home, j) == d ==> j == Slot(n, home, d)
  {
  }

  /** d probe steps lead d buckets on, around the end. */
  lemma SlotIsMod(n: nat, home: nat, d: nat)
    requires home < n && d < n
    ensures Slot(n, home, d) == (home + d) % n
  {
    if home + d < n {
      DivModUnique(home + d, n, 0, home + d);
    } else {
      DivModUnique(home + d, n, 1, home + d - n);
    }
  }

  /** A probe that stops has come d buckets on from home, over buckets where it does not stop. */
  lemma ProbeSteps<K, V>(cells: seq<Cell<K, V>>, home: nat, key: K, setting: bool) returns (d: nat)
    requires home < |cells| && Probe(cells, home, key, setting, 0) < |cells|
    ensures d < |cells| && Probe(cells, home, key, setting, 0) == Slot(|cells|, home, d)
    ensures Stops(cells[Slot(|cells|, home, d)], key, setting)
    ensures forall e :: 0 <= e < d ==> !Stops(cells[Slot(|cells|, home, e)], key, setting)
  {
    var n := |cells|;
    ProbeIsFirst(cells, home, key, setting, 0);
    d := Dist(n, home, Probe(cells, home, key, setting, 0));
    forall e | 0 <= e < d ensures !Stops(cells[Slot(n, home, e)], key, setting) {
      assert Dist(n, home, Slot(n, home, e)) == e;
    }
  }

  /** Every probe, of either kind and from any bucket, reaches a bucket where it stops. */
  lemma ProbeEnds<K, V>(hash: K -> nat, t: Table<K, V>, home: nat, key: K, setting: bool)
    requires Ok(hash, t) && home < |t.cells|
    ensures Probe(t.cells, home, key, setting, 0) < |t.cells|
  {
    var e := HasEmpty(hash, t);
    ProbeIsFirst(t.cells, home, key, setting, 0);
    assert Stops(t.cells[e], key, setting);
  }

  /** A probe that has reached bucket i is still on its way to the bucket where it stops. */
  ghost predicate Probing<K, V>(cells: seq<Cell<K, V>>, home: nat, key: K, setting: bool, i: nat) {
    && home < |cells| && i < |cells|
    && Probe(cells, home, key, setting, 0) < |cells|
    && Probe(cells, home, key, setting, 0) == Probe(cells, home, key, setting, Dist(|cells|, home, i))
  }

  /** One probe step: the distance left to the stopping bucket shrinks. */
  lemma ProbeStep<K, V>(cells: seq<Cell<K, V>>, home: nat, key: K, setting: bool, i: nat)
    requires Probing(cells, home, key, setting, i) && !Stops(cells[i], key, setting)
    ensures Probing(cells, home, key, setting, Next(|cells|, i))
    ensures Dist(|cells|, home, Next(|cells|, i)) == Dist(|cells|, home, i) + 1
  {
    var d := Dist(|cells|, home, i);
    assert Slot(|cells|, home, d) == i;
    assert Probe(cells, home, key, setting, d) == Probe(cells, home, key, setting, d + 1);
    assert d + 1 < |cells|;
  }

  lemma ProbeStop<K, V>(cells: seq<Cell<K, V>>, home: nat, key: K, setting: bool, i: nat)
    requires Probing(cells, home, key, setting, i) && Stops(cells[i], key, setting)
    ensures Probe(cells, home, key, setting, 0) == i
  {
    assert Slot(|cells|, home, Dist(|cells|, home, i)) == i;
  }

  // ---------- lookup ----------

  /** Get finds the bucket of key that comes first on its probe path, and reports the bucket count
      exactly when no bucket holds key. */
  lemma GetFindsFirst<K, V>(hash: K -> nat, t: Table<K, V>, key: K)
    requires Ok(hash, t)
    ensures var r := Get(hash, t.cells, key); r <= |t.cells|
    ensures var r := Get(hash, t.cells, key); r == |t.cells| <==> !HasKey(t.cells, key)
    ensures var r := Get(hash, t.cells, key); r < |t.cells| ==>
              && Holds(t.cells, r, key)
              && forall j: nat :: Holds(t.cells, j, key) ==>
                   Dist(|t.cells|, Home(hash, key, |t.cells|), r) <= Dist(|t.cells|, Home(hash, key, |t.cells|), j)
  {
    if t.cells != [] {
      var e := HasEmpty(hash, t);
      ProbeIsFirst(t.cells, Home(hash, key, |t.cells|), key, false, 0);
      assert Stops(t.cells[e], key, false);
      var i := Probe(t.cells, Home(hash, key, |t.cells|), key, false, 0);
      if HasKey(t.cells, key) {
        var j: nat :| Holds(t.cells, j, key);
        assert Stops(t.cells[j], key, false) && Reached(hash, t.cells, j);
      }
      if t.cells[i].Live? {
        assert Holds(t.cells, i, key);
      }
    }
  }

  /** A key's lookup is decided by its first holder. */
  lemma LookupAt<K, V>(hash: K -> nat, t: Table<K, V>, key: K, i: nat)
    requires Ok(hash, t) && Holds(t.cells, i, key)
    requires forall j: nat :: Holds(t.cells, j, key) ==>
               Dist(|t.cells|, Home(hash, key, |t.cells|), i) <= Dist(|t.cells|, Home(hash, key, |t.cells|), j)
    ensures Get(hash, t.cells, key) == i
    ensures Lookup(hash, t, key) == Some(t.cells[i].val)
  {
    GetFindsFirst(hash, t, key);
  }

  lemma LookupNone<K, V>(hash: K -> nat, t: Table<K, V>, key: K)
    requires Ok(hash, t)
    ensures Lookup(hash, t, key) == None <==> !HasKey(t.cells, key)
  {
    GetFindsFirst(hash, t, key);
  }

  /** Where a stored key is found: d buckets on from the bucket that its hash leaves modulo the bucket count,
      over erased buckets and other keys. */
  lemma GetProbes<K, V>(hash: K -> nat, t: Table<K, V>, key: K) returns (d: nat)
    requires Ok(hash, t) && Get(hash, t.cells, key) < |t.cells|
    ensures d < |t.cells| && Get(hash, t.cells, key) == Slot(|t.cells|, hash(key) % |t.cells|, d)
    ensures forall e :: 0 <= e < d ==>
              var c := t.cells[Slot(|t.cells|, hash(key) % |t.cells|, e)];
              c.Erased? || (c.Live? && c.key != key)
  {
    d := ProbeSteps(t.cells, Home(hash, key, |t.cells|), key, false);
  }

  // ---------- insertion without rehash ----------

  /** An insertion stops at the key or at a dead cell ahead of every holder of the key. */
  lemma SetSlotFacts<K, V>(hash: K -> nat, t: Table<K, V>, key: K)
    requires Ok(hash, t) && t.cells != []
    ensures var i := SetSlot(hash, t, key); i < |t.cells| && SetStops(t.cells[i], key)
    ensures var i := SetSlot(hash, t, key);
            forall j :: 0 <= j < |t.cells| && SetStops(t.cells[j], key) ==>
              Dist(|t.cells|, Home(hash, key, |t.cells|), i) <= Dist(|t.cells|, Home(hash, key, |t.cells|), j)
  {
    var e := HasEmpty(hash, t);
    ProbeIsFirst(t.cells, Home(hash, key, |t.cells|), key, true, 0);
    assert Stops(t.cells[e], key, true);
    var i := SetSlot(hash, t, key);
    forall j | 0 <= j < |t.cells| && SetStops(t.cells[j], key)
      ensures Dist(|t.cells|, Home(hash, key, |t.cells|), i) <= Dist(|t.cells|, Home(hash, key, |t.cells|), j)
    {
      assert Stops(t.cells[j], key, true);
    }
  }

  /** Where an insertion lands: d buckets on from the bucket that the hash leaves modulo the bucket count,
      over other keys, at the first bucket that is empty, erased or holds the key. */
  lemma SetProbes<K, V>(hash: K -> nat, t: Table<K, V>, key: K) returns (d: nat)
    requires Ok(hash, t) && t.cells != []
    ensures d < |t.cells| && SetSlot(hash, t, key) == Slot(|t.cells|, hash(key) % |t.cells|, d)
    ensures var c := t.cells[Slot(|t.cells|, hash(key) % |t.cells|, d)]; c.Live? ==> c.key == key
    ensures forall e :: 0 <= e < d ==>
              var c := t.cells[Slot(|t.cells|, hash(key) % |t.cells|, e)]; c.Live? && c.key != key
  {
    SetSlotFacts(hash, t, key);
    d := ProbeSteps(t.cells, Home(hash, key, |t.cells|), key, true);
  }

  /** Insertion below the threshold keeps the structural invariant. */
  lemma PlaceOk<K, V>(hash: K -> nat, t: Table<K, V>, key: K, val: V, displace: bool)
    requires Ok(hash, t) && t.used < ResizeCount(|t.cells|)
    ensures Ok(hash, Place(hash, t, key, val, displace))
    ensures |Place(hash, t, key, val, displace).cells| == |t.cells|
  {
    SetSlotFacts(hash, t, key);
    var i := SetSlot(hash, t, key);
    CountUpdate(t.cells, i, Live(key, val), IsLive);
    CountUpdate(t.cells, i, Live(key, val), IsUsed);
    var u := t.cells[i := Live(key, val)];
    forall a | 0 <= a < |u| ensures Reached(hash, u, a) {
      if a != i { assert Reached(hash, t.cells, a); }
      forall b | 0 <= b < |u| && u[b].Empty? && a == i
        ensures Dist(|u|, Home(hash, key, |u|), i) < Dist(|u|, Home(hash, key, |u|), b)
      {
        assert SetStops(t.cells[b], key);
      }
    }
  }

  /** After an insertion the key is found with the inserted value, or with the value it had when
      the insertion met the key itself and was told not to displace it. */
  lemma PlaceLookupSame<K, V>(hash: K -> nat, t: Table<K, V>, key: K, val: V, displace: bool)
    requires Ok(hash, t) && t.used < ResizeCount(|t.cells|)
    ensures SetSlot(hash, t, key) < |t.cells|
    ensures var i := SetSlot(hash, t, key);
            Lookup(hash, Place(hash, t, key, val, displace), key)
              == Some(if t.cells[i].Live? && !displace then t.cells[i].val else val)
    ensures Get(hash, Place(hash, t, key, val, displace).cells, key) == SetSlot(hash, t, key)
    ensures t.cells[SetSlot(hash, t, key)].Live? ==>
              Lookup(hash, t, key) == Some(t.cells[SetSlot(hash, t, key)].val)
  {
    SetSlotFacts(hash, t, key);
    PlaceOk(hash, t, key, val, displace);
    var i := SetSlot(hash, t, key);
    var u := Place(hash, t, key, val, displace);
    forall j: nat | Holds(u.cells, j, key)
      ensures Dist(|t.cells|, Home(hash, key, |t.cells|), i) <= Dist(|t.cells|, Home(hash, key, |t.cells|), j)
    {
      assert j == i || SetStops(t.cells[j], key);
    }
    LookupAt(hash, u, key, i);
    if t.cells[i].Live? {
      assert forall j: nat :: Holds(t.cells, j, key) ==> SetStops(t.cells[j], key);
      LookupAt(hash, t, key, i);
    }
  }

  /** Rewriting one cell that is neither live with another key nor emptied by the change leaves
      the lookups of that other key alone. */
  lemma OtherLookup<K, V>(hash: K -> nat, t: Table<K, V>, u: Table<K, V>, other: K)
    requires Ok(hash, t) && Ok(hash, u) && |t.cells| == |u.cells|
    requires forall j: nat :: Holds(t.cells, j, other) <==> Holds(u.cells, j, other)
    requires forall j: nat :: Holds(t.cells, j, other) ==> t.cells[j] == u.cells[j]
    ensures Lookup(hash, u, other) == Lookup(hash, t, other)
  {
    GetFindsFirst(hash, t, other);
    var r := Get(hash, t.cells, other);
    if r < |t.cells| {
      LookupAt(hash, u, other, r);
    } else {
      LookupNone(hash, u, other);
      LookupNone(hash, t, other);
    }
  }

  lemma PlaceLookupOther<K, V>(hash: K -> nat, t: Table<K, V>, key: K, val: V, displace: bool, other: K)
    requires Ok(hash, t) && t.used < ResizeCount(|t.cells|) && other != key
    ensures Lookup(hash, Place(hash, t, key, val, displace), other) == Lookup(hash, t, other)
  {
    SetSlotFacts(hash, t, key);
    PlaceOk(hash, t, key, val, displace);
    OtherLookup(hash, t, Place(hash, t, key, val, displace), other);
  }

  // ---------- uniqueness ----------

  /** An erased cell lies ahead of a holder of key on its probe path. */
  ghost predicate Blocked<K, V>(hash: K -> nat, cells: seq<Cell<K, V>>, key: K) {
    exists i: nat, j: nat ::
      && Holds(cells, i, key)
      && j < |cells| && cells[j].Erased?
      && Dist(|cells|, Home(hash, key, |cells|), j) < Dist(|cells|, Home(hash, key, |cells|), i)
  }

  /** With unique keys, an insertion stops at a dead cell although the key is stored exactly when an
      erased cell lies ahead of it. */
  lemma SlotMissesKey<K, V>(hash: K -> nat, t: Table<K, V>, key: K)
    requires Ok(hash, t) && t.cells != [] && Unique(t.cells)
    ensures SetSlot(hash, t, key) < |t.cells|
    ensures Blocked(hash, t.cells, key) <==> HasKey(t.cells, key) && !t.cells[SetSlot(hash, t, key)].Live?
    ensures t.cells[SetSlot(hash, t, key)].Live? ==> Holds(t.cells, SetSlot(hash, t, key), key)
  {
    SetSlotFacts(hash, t, key);
    var i := SetSlot(hash, t, key);
    if Blocked(hash, t.cells, key) {
      var a: nat, b: nat :| Holds(t.cells, a, key) && b < |t.cells| && t.cells[b].Erased?
        && Dist(|t.cells|, Home(hash, key, |t.cells|), b) < Dist(|t.cells|, Home(hash, key, |t.cells|), a);
      assert SetStops(t.cells[b], key);
    }
    if HasKey(t.cells, key) && !t.cells[i].Live? {
      var a: nat :| Holds(t.cells, a, key);
      assert SetStops(t.cells[a], key) && Reached(hash, t.cells, a);
      assert t.cells[i].Erased?;
    }
  }

  /** Insertion keeps keys unique exactly when no erased cell lies ahead of the key. */
  lemma PlaceUnique<K, V>(hash: K -> nat, t: Table<K, V>, key: K, val: V, displace: bool)
    requires Ok(hash, t) && t.used < ResizeCount(|t.cells|) && Unique(t.cells)
    ensures Unique(Place(hash, t, key, val, displace).cells) <==> !Blocked(hash, t.cells, key)
    ensures SetSlot(hash, t, key) < |t.cells|
    ensures !Blocked(hash, t.cells, key) ==> (t.cells[SetSlot(hash, t, key)].Live? <==> HasKey(t.cells, key))
  {
    SlotMissesKey(hash, t, key);
    var i := SetSlot(hash, t, key);
    var u := Place(hash, t, key, val, displace);
    if Blocked(hash, t.cells, key) {
      var a: nat :| Holds(t.cells, a, key);
      assert u.cells[i].Live? && u.cells[a].Live? && u.cells[i].key == u.cells[a].key && i != a;
    } else {
      forall a, b | 0 <= a < |u.cells| && 0 <= b < |u.cells|
                    && u.cells[a].Live? && u.cells[b].Live? && u.cells[a].key == u.cells[b].key
        ensures a == b
      {
        assert a != i ==> Holds(t.cells, a, u.cells[a].key);
        assert b != i ==> Holds(t.cells, b, u.cells[b].key);
      }
    }
  }

  // ---------- rehash ----------

  /** i is the first bucket, in bucket order, that holds its key. */
  ghost predicate Leads<K, V>(cells: seq<Cell<K, V>>, i: nat) {
    i < |cells| && cells[i].Live? && forall j :: 0 <= j < i ==> !Holds(cells, j, cells[i].key)
  }

  lemma FreshOk<K, V>(hash: K -> nat, n: nat)
    requires IsPow2(n)
    ensures Ok(hash, Fresh<K, V>(n)) && n > 0
  {
    Pow2Double(n);
    CountNone(Fresh<K, V>(n).cells, IsLive);
    CountNone(Fresh<K, V>(n).cells, IsUsed);
  }

  /** The state of a rebuild after the buckets of from. */
  ghost predicate Rebuilt<K(!new), V(!new)>(hash: K -> nat, from: seq<Cell<K, V>>, t: Table<K, V>) {
    && Ok(hash, t)
    && NoErased(t.cells) && Unique(t.cells)
    && t.used == t.size <= Count(from, IsLive)
    && (forall key :: HasKey(t.cells, key) <==> HasKey(from, key))
    && (forall i: nat :: Leads(from, i) ==> Lookup(hash, t, from[i].key) == Some(from[i].val))
  }

  lemma PlaceKeys<K, V>(hash: K -> nat, t: Table<K, V>, key: K, val: V, displace: bool, k: K)
    requires Ok(hash, t) && t.used < ResizeCount(|t.cells|)
    ensures HasKey(Place(hash, t, key, val, displace).cells, k) <==> HasKey(t.cells, k) || k == key
  {
    PlaceOk(hash, t, key, val, displace);
    var u := Place(hash, t, key, val, displace);
    LookupNone(hash, t, k);
    LookupNone(hash, u, k);
    if k == key {
      PlaceLookupSame(hash, t, key, val, displace);
    } else {
      PlaceLookupOther(hash, t, key, val, displace, k);
    }
  }

  /** Reinserting one more cell: the inner insertion never reaches the growth threshold. */
  lemma ReinsertCell<K(!new), V(!new)>(hash: K -> nat, from: seq<Cell<K, V>>, key: K, val: V, t: Table<K, V>)
    requires Rebuilt(hash, from, t) && Count(from, IsLive) < ResizeCount(|t.cells|)
    ensures Rebuilt(hash, from + [Live(key, val)], Place(hash, t, key, val, false))
  {
    var all := from + [Live(key, val)];
    assert all[..|from|] == from;
    var u := Place(hash, t, key, val, false);
    PlaceOk(hash, t, key, val, false);
    PlaceUnique(hash, t, key, val, false);
    SetSlotFacts(hash, t, key);
    PlaceLookupSame(hash, t, key, val, false);
    forall k ensures HasKey(u.cells, k) <==> HasKey(all, k) {
      PlaceKeys(hash, t, key, val, false, k);
      HasKeySnoc(from, Live(key, val), k);
    }
    forall i: nat | Leads(all, i) ensures Lookup(hash, u, all[i].key) == Some(all[i].val) {
      if i == |from| {
        assert !HasKey(from, key) by {
          if j: nat :| Holds(from, j, key) { assert Holds(all, j, key); }
        }
      } else {
        assert Leads(from, i) by {
          assert forall j :: 0 <= j < i ==> (Holds(all, j, all[i].key) <==> Holds(from, j, all[i].key));
        }
        if all[i].key != key {
          PlaceLookupOther(hash, t, key, val, false, all[i].key);
        } else {
          assert Holds(from, i, key);
        }
      }
    }
  }

  lemma HasKeySnoc<K, V>(from: seq<Cell<K, V>>, c: Cell<K, V>, k: K)
    ensures HasKey(from + [c], k) <==> HasKey(from, k) || (c.Live? && c.key == k)
  {
    if j: nat :| Holds(from, j, k) { assert Holds(from + [c], j, k); }
    if c.Live? && c.key == k { assert Holds(from + [c], |from|, k); }
    if j: nat :| Holds(from + [c], j, k) {
      assert j < |from| ==> Holds(from, j, k);
    }
  }

  lemma ReinsertDead<K(!new), V(!new)>(hash: K -> nat, from: seq<Cell<K, V>>, c: Cell<K, V>, t: Table<K, V>)
    requires Rebuilt(hash, from, t) && !c.Live?
    ensures Rebuilt(hash, from + [c], t)
  {
    var all := from + [c];
    assert all[..|from|] == from;
    forall k ensures HasKey(t.cells, k) <==> HasKey(all, k) {
      HasKeySnoc(from, c, k);
    }
    forall i: nat | Leads(all, i) ensures Lookup(hash, t, all[i].key) == Some(all[i].val) {
      assert Leads(from, i) by {
        assert forall j :: 0 <= j < i ==> (Holds(all, j, all[i].key) <==> Holds(from, j, all[i].key));
      }
    }
  }

  /** Rebuilding yields a table without tombstones, with unique keys and the same key set; a key
      that occupied several buckets keeps the value of the lowest one. */
  lemma {:induction false} Reinserted<K(!new), V(!new)>(hash: K -> nat, from: seq<Cell<K, V>>, n: nat)
    requires IsPow2(n) && Count(from, IsLive) <= ResizeCount(n)
    ensures Rebuilt(hash, from, Reinsert(hash, from, Fresh(n)))
    ensures |Reinsert(hash, from, Fresh(n)).cells| == n
  {
    if from == [] {
      FreshOk<K, V>(hash, n);
      assert forall k :: !HasKey<K, V>(from, k);
      assert forall k :: !HasKey(Fresh<K, V>(n).cells, k);
    } else {
      var init, c := from[..|from| - 1], from[|from| - 1];
      assert from == init + [c];
      Reinserted(hash, init, n);
      var t := Reinsert(hash, init, Fresh(n));
      if c.Live? {
        SetSlotFacts(hash, t, c.key);
        ReinsertCell(hash, init, c.key, c.val, t);
      } else {
        ReinsertDead(hash, init, c, t);
      }
    }
  }

  // ---------- whole operations ----------

  lemma SizeWithinUsed<K, V>(hash: K -> nat, t: Table<K, V>)
    requires Ok(hash, t)
    ensures t.size <= t.used
  {
    CountWeaker(t.cells, IsLive, IsUsed);
  }

  /** Rehashing yields a tombstone-free table with unique keys and the same keys; it keeps every
      lookup when keys were unique. */
  lemma ResizeMeaning<K(!new), V(!new)>(hash: K -> nat, t: Table<K, V>, n: nat)
    requires Ok(hash, t) && IsPow2(n) && t.size <= ResizeCount(n)
    ensures var u := Resize(hash, t, n);
            Ok(hash, u) && |u.cells| == n && NoErased(u.cells) && Unique(u.cells) && u.used <= t.size
    ensures forall key :: HasKey(Resize(hash, t, n).cells, key) <==> HasKey(t.cells, key)
    ensures forall i: nat :: Leads(t.cells, i) ==>
              Lookup(hash, Resize(hash, t, n), t.cells[i].key) == Some(t.cells[i].val)
    ensures Unique(t.cells) ==> forall key :: Lookup(hash, Resize(hash, t, n), key) == Lookup(hash, t, key)
  {
    Reinserted(hash, t.cells, n);
    var u := Resize(hash, t, n);
    if Unique(t.cells) {
      forall key ensures Lookup(hash, u, key) == Lookup(hash, t, key) {
        LookupNone(hash, t, key);
        LookupNone(hash, u, key);
        if HasKey(t.cells, key) {
          var i: nat :| Holds(t.cells, i, key);
          LookupAt(hash, t, key, i);
          assert Leads(t.cells, i);
        }
      }
    }
  }

  /** Growing makes room for one insertion, so the insertion inside a rehash never rehashes. */
  lemma GrownMeaning<K(!new), V(!new)>(hash: K -> nat, t: Table<K, V>)
    requires Ok(hash, t)
    ensures var u := Grown(hash, t); Ok(hash, u) && u.used < ResizeCount(|u.cells|)
    ensures forall key :: HasKey(Grown(hash, t).cells, key) <==> HasKey(t.cells, key)
    ensures Unique(t.cells) ==> Unique(Grown(hash, t).cells)
    ensures Unique(t.cells) ==> forall key :: Lookup(hash, Grown(hash, t), key) == Lookup(hash, t, key)
    ensures t.used >= ResizeCount(|t.cells|) ==> Unique(Grown(hash, t).cells) && NoErased(Grown(hash, t).cells)
  {
    SizeWithinUsed(hash, t);
    if t.used >= ResizeCount(|t.cells|) {
      if t.cells == [] {
        assert Pow2(3) == 8;
        ResizeMeaning(hash, t, 8);
      } else {
        Thresholds(|t.cells|);
        Pow2Double(|t.cells|);
        ResizeMeaning(hash, t, 2 * |t.cells|);
      }
    }
  }

  /** The insertion of key meets no tombstone ahead of it: the key is absent, or the probe reaches it
      first, or a rehash sweeps the tombstones away. */
  ghost predicate Clean<K, V>(hash: K -> nat, t: Table<K, V>, key: K) {
    t.used >= ResizeCount(|t.cells|) || !Blocked(hash, t.cells, key)
  }

  /** Insertion in any table, duplicates included. */
  lemma SetMeaning<K(!new), V(!new)>(hash: K -> nat, t: Table<K, V>, key: K, val: V, displace: bool)
    requires Ok(hash, t)
    ensures Ok(hash, Set(hash, t, key, val, displace))
    ensures displace ==> Lookup(hash, Set(hash, t, key, val, displace), key) == Some(val)
    ensures forall k :: HasKey(Set(hash, t, key, val, displace).cells, k) <==> HasKey(t.cells, k) || k == key
    ensures t.used < ResizeCount(|t.cells|) ==> forall k :: k != key ==>
              Lookup(hash, Set(hash, t, key, val, displace), k) == Lookup(hash, t, k)
  {
    GrownMeaning(hash, t);
    var g := Grown(hash, t);
    PlaceOk(hash, g, key, val, displace);
    PlaceLookupSame(hash, g, key, val, displace);
    forall k ensures HasKey(Set(hash, t, key, val, displace).cells, k) <==> HasKey(t.cells, k) || k == key {
      PlaceKeys(hash, g, key, val, displace, k);
    }
    forall k | t.used < ResizeCount(|t.cells|) && k != key
      ensures Lookup(hash, Set(hash, t, key, val, displace), k) == Lookup(hash, t, k)
    {
      PlaceLookupOther(hash, g, key, val, displace, k);
    }
  }

  /** Insertion in a table with unique keys: it keeps them unique exactly when it is clean, and then
      it acts on lookups as an insertion into a map. */
  lemma SetUniqueMeaning<K(!new), V(!new)>(hash: K -> nat, t: Table<K, V>, key: K, val: V, displace: bool)
    requires Ok(hash, t) && Unique(t.cells)
    ensures Unique(Set(hash, t, key, val, displace).cells) <==> Clean(hash, t, key)
    ensures Clean(hash, t, key) ==>
              Lookup(hash, Set(hash, t, key, val, displace), key)
                == (if Lookup(hash, t, key).Some? && !displace then Lookup(hash, t, key) else Some(val))
    ensures forall k :: k != key ==> Lookup(hash, Set(hash, t, key, val, displace), k) == Lookup(hash, t, k)
  {
    GrownMeaning(hash, t);
    var g := Grown(hash, t);
    PlaceUnique(hash, g, key, val, displace);
    PlaceLookupSame(hash, g, key, val, displace);
    LookupNone(hash, g, key);
    if t.used >= ResizeCount(|t.cells|) {
      assert !Blocked(hash, g.cells, key);
    }
    forall k | k != key ensures Lookup(hash, Set(hash, t, key, val, displace), k) == Lookup(hash, t, k) {
      PlaceLookupOther(hash, g, key, val, displace, k);
    }
  }

  /** Some bucket other than i holds key. */
  ghost predicate HeldElsewhere<K, V>(cells: seq<Cell<K, V>>, i: nat, key: K) {
    exists j: nat :: j != i && Holds(cells, j, key)
  }

  lemma UnlinkOk<K, V>(hash: K -> nat, t: Table<K, V>, i: nat)
    requires Ok(hash, t) && i < |t.cells| && t.cells[i].Live?
    ensures t.size > 0 && Ok(hash, Unlink(t, i))
  {
    CountUpdate(t.cells, i, Erased, IsLive);
    CountUpdate(t.cells, i, Erased, IsUsed);
    var u := Unlink(t, i).cells;
    forall a | 0 <= a < |u| ensures Reached(hash, u, a) {
      assert Reached(hash, t.cells, a);
    }
  }

  /** Erasing a live cell, before any shrinking. */
  lemma UnlinkMeaning<K(!new), V>(hash: K -> nat, t: Table<K, V>, i: nat)
    requires Ok(hash, t) && i < |t.cells| && t.cells[i].Live?
    ensures t.size > 0 && Ok(hash, Unlink(t, i))
    ensures Unique(t.cells) ==> Unique(Unlink(t, i).cells)
    ensures forall k :: HasKey(Unlink(t, i).cells, k) <==> HeldElsewhere(t.cells, i, k)
    ensures forall k :: k != t.cells[i].key ==> Lookup(hash, Unlink(t, i), k) == Lookup(hash, t, k)
  {
    UnlinkOk(hash, t, i);
    var u := Unlink(t, i);
    forall k ensures HasKey(u.cells, k) <==> HeldElsewhere(t.cells, i, k) {
      if j: nat :| Holds(u.cells, j, k) {
        assert j != i && Holds(t.cells, j, k);
      }
      if j: nat :| j != i && Holds(t.cells, j, k) {
        assert Holds(u.cells, j, k);
      }
    }
    forall k | k != t.cells[i].key ensures Lookup(hash, u, k) == Lookup(hash, t, k) {
      OtherLookup(hash, t, u, k);
    }
  }

  /** Deletion by bucket index in any table, through the shrinking rehash. */
  lemma DeleteMeaning<K(!new), V(!new)>(hash: K -> nat, t: Table<K, V>, i: nat)
    requires Ok(hash, t)
    ensures Ok(hash, Delete(hash, t, i))
    ensures i < |t.cells| && t.cells[i].Live? ==>
              forall k :: HasKey(Delete(hash, t, i).cells, k) <==> HeldElsewhere(t.cells, i, k)
    ensures i < |t.cells| && t.cells[i].Live? && |Delete(hash, t, i).cells| == |t.cells| ==>
              forall k :: k != t.cells[i].key ==> Lookup(hash, Delete(hash, t, i), k) == Lookup(hash, t, k)
    ensures Unique(t.cells) ==> Unique(Delete(hash, t, i).cells)
    ensures Unique(t.cells) && i < |t.cells| && t.cells[i].Live? ==>
              forall k :: k != t.cells[i].key ==> Lookup(hash, Delete(hash, t, i), k) == Lookup(hash, t, k)
  {
    if i < |t.cells| && t.cells[i].Live? {
      UnlinkMeaning(hash, t, i);
      var u := Unlink(t, i);
      if u.size < ShrinkCount(|t.cells|) && |t.cells| > 8 {
        Thresholds(|t.cells|);
        Pow2Double(|t.cells|);
        ResizeMeaning(hash, u, |t.cells| / 2);
      }
    }
  }

  /** An erasure halves a table of more than eight buckets, and sweeps its tombstones, exactly when the pairs
      that remain are fewer than a fifth of the buckets, in single precision; otherwise only the one bucket
      changes. */
  lemma DeleteShrinks<K(!new), V(!new)>(hash: K -> nat, t: Table<K, V>, i: nat)
    requires Ok(hash, t) && i < |t.cells| && t.cells[i].Live?
    ensures |t.cells| > 8 && t.size * 67108864 <= |t.cells| * 13421773 ==>
              |Delete(hash, t, i).cells| == |t.cells| / 2 && NoErased(Delete(hash, t, i).cells)
    ensures !(|t.cells| > 8 && t.size * 67108864 <= |t.cells| * 13421773) ==>
              Delete(hash, t, i).cells == t.cells[i := Erased]
  {
    UnlinkMeaning(hash, t, i);
    Factors(|t.cells|);
    var u := Unlink(t, i);
    if u.size < ShrinkCount(|t.cells|) && |t.cells| > 8 {
      Thresholds(|t.cells|);
      Pow2Double(|t.cells|);
      ResizeMeaning(hash, u, |t.cells| / 2);
    }
  }

  /** No two buckets hold key. */
  ghost predicate HeldOnce<K, V>(cells: seq<Cell<K, V>>, key: K) {
    forall i: nat, j: nat :: Holds(cells, i, key) && Holds(cells, j, key) ==> i == j
  }

  /** After erase(key) the key is gone exactly when it occupied at most one bucket. */
  lemma EraseRemoves<K(!new), V(!new)>(hash: K -> nat, t: Table<K, V>, key: K)
    requires Ok(hash, t)
    ensures Ok(hash, Erase(hash, t, key))
    ensures Lookup(hash, Erase(hash, t, key), key) == None <==> HeldOnce(t.cells, key)
    ensures Unique(t.cells) ==> Unique(Erase(hash, t, key).cells)
    ensures Unique(t.cells) ==>
              forall k :: Lookup(hash, Erase(hash, t, key), k) == (if k == key then None else Lookup(hash, t, k))
  {
    GetFindsFirst(hash, t, key);
    var i := Get(hash, t.cells, key);
    DeleteMeaning(hash, t, i);
    LookupNone(hash, t, key);
    LookupNone(hash, Erase(hash, t, key), key);
    if i < |t.cells| {
      assert HeldElsewhere(t.cells, i, key) <==> !HeldOnce(t.cells, key);
    } else {
      assert forall j: nat :: !Holds(t.cells, j, key);
    }
  }
}
