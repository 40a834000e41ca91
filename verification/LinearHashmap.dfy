/** The open-addressing hash map, updated in place over one array of buckets. Every mutating
    call is proved to act on the cells of the table as the corresponding function of LinearTable. */
module LinearHashmap {
  import opened Bits
  import opened Counting
  import opened LinearTable
  import opened Options
  import opened LinearTableFacts
  import opened LinearHistory

  /** A bucket without a stored pair carries one of the two sentinel keys. */
  datatype Bucket<K, V> = Bucket(key: K, val: V)

  function CellOf<K(==), V>(b: Bucket<K, V>, empty: K, erased: K): Cell<K, V> {
    if b.key == empty then Empty else if b.key == erased then Erased else Live(b.key, b.val)
  }

  function Cells<K(==), V>(bs: seq<Bucket<K, V>>, empty: K, erased: K): (cs: seq<Cell<K, V>>)
    ensures |cs| == |bs| && forall i :: 0 <= i < |bs| ==> cs[i] == CellOf(bs[i], empty, erased)
  {
    seq(|bs|, i requires 0 <= i < |bs| => CellOf(bs[i], empty, erased))
  }

  const MAX_BUCKETS: nat := 0x4000_0000

  class LinearHashmap<K(==, 0, !new), V(0, !new)> {
    const hash: K -> nat
    const emptyKey: K
    const erasedKey: K
    const dummy: V
    var bucketCount: nat
    var resizeCount: nat
    var shrinkCount: nat
    var mask: nat
    var size: nat
    var used: nat
    var buckets: array?<Bucket<K, V>>

    ghost function View(): (t: Table<K, V>)
      reads this, buckets
    {
      Table(if buckets == null then [] else Cells(buckets[..], emptyKey, erasedKey), size, used)
    }

    ghost predicate Valid()
      reads this, buckets
    {
      && emptyKey != erasedKey
      && (bucketCount == 0 || buckets != null)
      && (buckets != null ==> buckets.Length == bucketCount)
      && bucketCount <= MAX_BUCKETS
      && resizeCount == ResizeCount(bucketCount)
      && shrinkCount == ShrinkCount(bucketCount)
      && (bucketCount != 0 ==> mask == bucketCount - 1)
      && Ok(hash, View())
    }

    predicate IsKey(key: K) {
      key != emptyKey && key != erasedKey
    }

    predicate Deleted(i: nat)
      requires buckets != null && i < buckets.Length
      reads this, buckets
    {
      buckets[i].key == erasedKey
    }

    predicate Vacant(i: nat)
      requires buckets != null && i < buckets.Length
      reads this, buckets
    {
      buckets[i].key == emptyKey
    }

    predicate Exists(i: nat)
      requires buckets != null && i < buckets.Length
      reads this, buckets
    {
      !Deleted(i) && !Vacant(i)
    }

    /** A new table, of as many buckets as the request rounds to. */
    constructor (hash: K -> nat, initBucketCount: nat, emptyKey: K, erasedKey: K, dummy: V)
      requires emptyKey != erasedKey && FirstCount(initBucketCount) >= 0
      ensures Valid() && (buckets == null || fresh(buckets))
      ensures View() == Fresh(FirstCount(initBucketCount))
      ensures this.hash == hash && this.emptyKey == emptyKey && this.erasedKey == erasedKey && this.dummy == dummy
      decreases 2
    {
      this.hash, this.emptyKey, this.erasedKey, this.dummy := hash, emptyKey, erasedKey, dummy;
      bucketCount, resizeCount, shrinkCount, mask, size, used := 0, 0, 0, 0, 0, 0;
      buckets := null;
      new;
      InitialOk(hash, View());
      FirstRoomy(initBucketCount);
      if initBucketCount != 0 {
        FirstCountIs(initBucketCount % UINT);
        FirstCountFits(initBucketCount);
        var granted := Resize(NextPowTwo(initBucketCount % UINT));
      }
    }

    /** What a construction comes to: a table, or the exception of an allocation that cannot succeed, because
        the rounded request is negative and becomes a bucket count next to 2^64. */
    static method New(hash: K -> nat, initBucketCount: nat, emptyKey: K, erasedKey: K, dummy: V)
      returns (r: LinearHashmap?<K, V>)
      requires emptyKey != erasedKey
      ensures r == null <==> 0x4000_0000 < initBucketCount % UINT <= 0x8000_0000
      ensures r != null ==> fresh(r) && r.Valid() && (r.buckets == null || fresh(r.buckets))
      ensures r != null ==> FirstCount(initBucketCount) >= 0 && r.View() == Fresh(FirstCount(initBucketCount))
      ensures r != null ==> r.hash == hash && r.emptyKey == emptyKey && r.erasedKey == erasedKey && r.dummy == dummy
      decreases 3
    {
      FirstRoomy(initBucketCount);
      r := null;
      if FirstCount(initBucketCount) >= 0 {
        r := new LinearHashmap(hash, initBucketCount, emptyKey, erasedKey, dummy);
      }
    }

    /** The index fields describe the buckets. */
    ghost predicate Shaped()
      reads this, buckets
    {
      && emptyKey != erasedKey
      && buckets != null && buckets.Length == bucketCount > 0
      && IsPow2(bucketCount) && mask == bucketCount - 1
    }

    /** The bucket where a lookup stops: never used or holding key. */
    method SeekGet(key: K, ghost cells: seq<Cell<K, V>>) returns (index: nat)
      requires Shaped() && IsKey(key) && cells == View().cells
      requires Probe(cells, Home(hash, key, bucketCount), key, false, 0) < bucketCount
      ensures index == Probe(cells, Home(hash, key, bucketCount), key, false, 0)
    {
      ghost var home := Home(hash, key, bucketCount);
      MaskIsMod(hash(key), bucketCount);
      index := BitAnd(hash(key), mask);
      while Deleted(index) || (Exists(index) && buckets[index].key != key)
        invariant index < bucketCount
        invariant Probing(cells, home, key, false, index)
        decreases bucketCount - Dist(bucketCount, home, index)
      {
        ProbeStep(cells, home, key, false, index);
        MaskedNext(bucketCount, index);
        index := BitAnd(index + 1, mask);
      }
      ProbeStop(cells, home, key, false, index);
    }

    /** The bucket of key, or bucketCount. */
    method Get(key: K) returns (r: nat)
      requires Valid() && IsKey(key)
      ensures r == LinearTable.Get(hash, View().cells, key)
    {
      if bucketCount == 0 {
        return bucketCount;
      }
      ProbeEnds(hash, View(), Home(hash, key, bucketCount), key, false);
      r := SeekGet(key, View().cells);
      if Vacant(r) {
        r := bucketCount;
      }
    }

    /** The bucket where an insertion stops: free, erased or holding key. */
    method SeekSet(key: K, ghost cells: seq<Cell<K, V>>) returns (index: nat)
      requires Shaped() && IsKey(key) && cells == View().cells
      requires Probe(cells, Home(hash, key, bucketCount), key, true, 0) < bucketCount
      ensures index == Probe(cells, Home(hash, key, bucketCount), key, true, 0)
    {
      ghost var home := Home(hash, key, bucketCount);
      MaskIsMod(hash(key), bucketCount);
      index := BitAnd(hash(key), mask);
      while Exists(index) && buckets[index].key != key
        invariant index < bucketCount
        invariant Probing(cells, home, key, true, index)
        decreases bucketCount - Dist(bucketCount, home, index)
      {
        ProbeStep(cells, home, key, true, index);
        MaskedNext(bucketCount, index);
        index := BitAnd(index + 1, mask);
      }
      ProbeStop(cells, home, key, true, index);
    }

    /** Stores the pair in a table with room for it. */
    method Store(key: K, val: V, displace: bool) returns (index: nat)
      requires Valid() && IsKey(key) && used < resizeCount
      modifies this`size, this`used, buckets
      ensures Valid()
      ensures View() == Place(hash, old(View()), key, val, displace)
      ensures index == SetSlot(hash, old(View()), key) < bucketCount
    {
      ghost var t := View();
      PlaceOk(hash, t, key, val, displace);
      SetSlotFacts(hash, t, key);
      index := SeekSet(key, t.cells);
      StoreAt(index, key, val, displace, t);
    }

    /** Writes the pair into a bucket that holds key or no pair. */
    method StoreAt(index: nat, key: K, val: V, displace: bool, ghost t: Table<K, V>)
      requires Shaped() && IsKey(key) && index < bucketCount && t == View()
      requires SetStops(t.cells[index], key)
      modifies this`size, this`used, buckets
      ensures View() ==
              if t.cells[index].Live? && !displace then t
              else Table(t.cells[index := Live(key, val)],
                         t.size + (if t.cells[index].Live? then 0 else 1),
                         t.used + (if t.cells[index].Empty? then 1 else 0))
    {
      if Exists(index) {
        if !displace {
          return;
        }
        buckets[index] := buckets[index].(val := val);
      } else {
        buckets[index] := buckets[index].(val := val);
        size := size + 1;
        if Vacant(index) {
          used := used + 1;
        }
      }
      buckets[index] := buckets[index].(key := key);
      assert View().cells == t.cells[index := Live(key, val)];
    }

    /** Makes room when the used buckets have reached the threshold, then stores the pair. A table of 2^30
        buckets cannot grow; then the call fails and leaves it as it was. */
    method Set(key: K, val: V, displace: bool) returns (r: Option<nat>)
      requires Valid() && IsKey(key)
      modifies this, buckets
      ensures Valid() && (buckets == old(buckets) || fresh(buckets))
      ensures r == None <==> old(|View().cells| == 0x4000_0000 && used >= resizeCount)
      ensures r == None ==> View() == old(View())
      ensures r != None ==> View() == LinearTable.Set(hash, old(View()), key, val, displace)
      ensures r != None ==> r.value == SetSlot(hash, Grown(hash, old(View())), key) < bucketCount
      decreases if used >= resizeCount then 6 else 0
    {
      ghost var t := View();
      assert |t.cells| == bucketCount;
      GrownMeaning(hash, t);
      if used >= resizeCount {
        GrowthFits(t);
        GrowthEnds(t);
        var granted := Resize(if bucketCount != 0 then 2 * bucketCount else 8);
        if !granted {
          return None;
        }
      }
      var index := Store(key, val, displace);
      r := Some(index);
    }

    lemma GrowthEnds(t: Table<K, V>)
      requires Ok(hash, t) && |t.cells| <= MAX_BUCKETS
      ensures 2 * |t.cells| <= MAX_BUCKETS || |t.cells| == 0x4000_0000
    {
      if t.cells != [] {
        TopPower(|t.cells|);
      }
    }

    lemma GrowthFits(t: Table<K, V>)
      requires Ok(hash, t)
      ensures var n := if t.cells != [] then 2 * |t.cells| else 8; IsPow2(n) && t.size <= ResizeCount(n)
    {
      SizeWithinUsed(hash, t);
      if t.cells != [] {
        Thresholds(|t.cells|);
        Pow2Double(|t.cells|);
      } else {
        assert Pow2(3) == 8;
      }
    }

    /** Marks a live bucket erased and halves the table when few pairs remain. */
    method Delete(index: nat)
      requires Valid()
      modifies this, buckets
      ensures Valid() && (buckets == old(buckets) || fresh(buckets))
      ensures View() == LinearTable.Delete(hash, old(View()), index)
    {
      if index >= bucketCount || Deleted(index) || Vacant(index) {
        return;
      }
      ghost var t := View();
      UnlinkMeaning(hash, t, index);
      buckets[index] := buckets[index].(key := erasedKey);
      size := size - 1;
      assert View().cells == t.cells[index := Erased];
      assert View() == Unlink(t, index);
      if size < shrinkCount && bucketCount > 8 {
        Thresholds(bucketCount);
        Pow2Double(bucketCount);
        var granted := Resize(bucketCount / 2);
      }
    }

    /** Allocates the first buckets, or moves every pair to a table of another size; the latter fails, and
        changes nothing, when that size is beyond 2^30. */
    method Resize(newBucketCount: nat) returns (granted: bool)
      requires Valid() && (IsPow2(newBucketCount) || newBucketCount == 0 == bucketCount)
      requires newBucketCount <= (if bucketCount == 0 then MAX_BUCKETS else 2 * MAX_BUCKETS)
      requires size <= ResizeCount(newBucketCount)
      modifies this
      ensures Valid() && (granted <==> newBucketCount <= MAX_BUCKETS)
      ensures granted ==> fresh(buckets) && View() == LinearTable.Resize(hash, old(View()), newBucketCount)
      ensures !granted ==> View() == old(View()) && buckets == old(buckets)
      decreases if bucketCount == 0 then 1 else 5
    {
      if bucketCount == 0 {
        InitializeBuckets(newBucketCount);
        return true;
      }
      Pow2Double(newBucketCount);
      GrowthRounds(newBucketCount);
      var other := New(hash, newBucketCount, emptyKey, erasedKey, dummy);
      if other == null {
        return false;
      }
      ghost var cells := View().cells;
      ResizeMeaning(hash, View(), newBucketCount);
      MovePairs(other, cells);
      Swap(other);
      granted := true;
    }

    method InitializeBuckets(newBucketCount: nat)
      requires Valid() && bucketCount == 0
      requires (newBucketCount == 0 || IsPow2(newBucketCount)) && newBucketCount <= MAX_BUCKETS
      modifies this
      ensures Valid() && fresh(buckets)
      ensures View() == Fresh(newBucketCount)
    {
      EmptyCounts(View());
      buckets := new Bucket<K, V>[newBucketCount];
      bucketCount := newBucketCount;
      resizeCount := ResizeCount(newBucketCount);
      shrinkCount := ShrinkCount(newBucketCount);
      mask := if bucketCount == 0 then SIZE_T - 1 else bucketCount - 1;
      for index := 0 to bucketCount
        modifies buckets
        invariant forall j :: 0 <= j < index ==> buckets[j].key == emptyKey
      {
        buckets[index] := buckets[index].(key := emptyKey);
      }
      assert View().cells == Fresh<K, V>(newBucketCount).cells;
      InitialOk(hash, Fresh<K, V>(newBucketCount));
    }

    /** Without buckets nothing is counted. */
    lemma EmptyCounts(t: Table<K, V>)
      requires Ok(hash, t) && t.cells == []
      ensures t == Fresh(0)
    {
    }

    /** The loop of a rehash: inserts every stored pair into the new table, in bucket order. */
    method MovePairs(other: LinearHashmap<K, V>, ghost cells: seq<Cell<K, V>>)
      requires Shaped() && cells == View().cells && other.Valid() && other != this
      requires other.buckets != buckets
      requires other.hash == hash && other.emptyKey == emptyKey && other.erasedKey == erasedKey
      requires other.bucketCount > 0 && other.View() == Fresh(other.bucketCount)
      requires Count(cells, IsLive) <= ResizeCount(other.bucketCount)
      modifies other, other.buckets
      ensures other.Valid() && (other.buckets == old(other.buckets) || fresh(other.buckets))
      ensures other.View() == Reinsert(hash, cells, Fresh(old(other.bucketCount)))
      decreases 4
    {
      ghost var n := other.bucketCount;
      for index := 0 to bucketCount
        invariant other.Valid() && (other.buckets == old(other.buckets) || fresh(other.buckets))
        invariant other.View() == Reinsert(hash, cells[..index], Fresh(n))
      {
        ReinsertNext(hash, cells, index, n);
        if Exists(index) {
          var slot := other.Set(buckets[index].key, buckets[index].val, false);
        }
      }
      assert cells[..bucketCount] == cells;
    }

    method Swap(other: LinearHashmap<K, V>)
      requires emptyKey == other.emptyKey && erasedKey == other.erasedKey
      modifies this, other
      ensures bucketCount == old(other.bucketCount) && other.bucketCount == old(bucketCount)
      ensures resizeCount == old(other.resizeCount) && other.resizeCount == old(resizeCount)
      ensures shrinkCount == old(other.shrinkCount) && other.shrinkCount == old(shrinkCount)
      ensures mask == old(other.mask) && other.mask == old(mask)
      ensures size == old(other.size) && other.size == old(size)
      ensures used == old(other.used) && other.used == old(used)
      ensures buckets == old(other.buckets) && other.buckets == old(buckets)
    {
      bucketCount, other.bucketCount := other.bucketCount, bucketCount;
      resizeCount, other.resizeCount := other.resizeCount, resizeCount;
      shrinkCount, other.shrinkCount := other.shrinkCount, shrinkCount;
      mask, other.mask := other.mask, mask;
      size, other.size := other.size, size;
      used, other.used := other.used, used;
      buckets, other.buckets := other.buckets, buckets;
    }

    // ---------- the public calls ----------

    /** find: the bucket of key, or bucketCount (end) exactly when no bucket holds key. */
    method Find(key: K) returns (r: nat)
      requires Valid() && IsKey(key)
      ensures r == bucketCount <==> Lookup(hash, View(), key) == None
      ensures r != bucketCount ==> r < bucketCount && buckets[r].key == key
                                   && Lookup(hash, View(), key) == Some(buckets[r].val)
    {
      r := Get(key);
      GetFindsFirst(hash, View(), key);
      LookupNone(hash, View(), key);
    }

    /** emplace: the bucket of key, which keeps its value when the probe meets it. */
    method Emplace(key: K, val: V) returns (r: Option<nat>)
      requires Valid() && IsKey(key)
      modifies this, buckets
      ensures Valid() && (buckets == old(buckets) || fresh(buckets))
      ensures r == None <==> old(|View().cells| == 0x4000_0000 && used >= resizeCount)
      ensures r == None ==> View() == old(View())
      ensures r != None ==> View() == Apply(hash, old(View()), Op.Emplace(key, val))
      ensures r != None ==> FoundAt(hash, View(), key, r.value)
      ensures r != None ==> r.value < bucketCount && buckets[r.value].key == key
                            && Lookup(hash, View(), key) == Some(buckets[r.value].val)
    {
      SetFinds(hash, View(), key, val, false);
      r := Set(key, val, false);
    }

    method InsertOrAssign(key: K, val: V) returns (r: Option<nat>)
      requires Valid() && IsKey(key)
      modifies this, buckets
      ensures Valid() && (buckets == old(buckets) || fresh(buckets))
      ensures r == None <==> old(|View().cells| == 0x4000_0000 && used >= resizeCount)
      ensures r == None ==> View() == old(View())
      ensures r != None ==> View() == Apply(hash, old(View()), Op.Assign(key, val))
      ensures r != None ==> FoundAt(hash, View(), key, r.value)
      ensures r != None ==> r.value < bucketCount && buckets[r.value].key == key
                            && Lookup(hash, View(), key) == Some(buckets[r.value].val)
    {
      SetFinds(hash, View(), key, val, true);
      r := Set(key, val, true);
    }

    /** operator[]: the bucket whose value the returned reference denotes. */
    method Index(key: K) returns (r: Option<nat>)
      requires Valid() && IsKey(key)
      modifies this, buckets
      ensures Valid() && (buckets == old(buckets) || fresh(buckets))
      ensures r == None <==> old(|View().cells| == 0x4000_0000 && used >= resizeCount)
      ensures r == None ==> View() == old(View())
      ensures r != None ==> View() == Apply(hash, old(View()), Op.Emplace(key, dummy))
      ensures r != None ==> FoundAt(hash, View(), key, r.value)
      ensures r != None ==> r.value < bucketCount && buckets[r.value].key == key
                            && Lookup(hash, View(), key) == Some(buckets[r.value].val)
    {
      SetFinds(hash, View(), key, dummy, false);
      r := Set(key, dummy, false);
    }

    method Erase(key: K)
      requires Valid() && IsKey(key)
      modifies this, buckets
      ensures Valid() && (buckets == old(buckets) || fresh(buckets))
      ensures View() == Apply(hash, old(View()), Op.EraseKey(key))
    {
      var r := Get(key);
      Delete(r);
    }

    method Clear()
      requires Valid()
      modifies this, buckets
      ensures Valid() && buckets == old(buckets)
      ensures View() == Apply(hash, old(View()), Op.Clear)
    {
      for index := 0 to bucketCount
        modifies buckets
        invariant forall j :: 0 <= j < index ==> buckets[j].key == emptyKey
      {
        if !Vacant(index) {
          buckets[index] := buckets[index].(key := emptyKey);
        }
      }
      size, used := 0, 0;
      InitialOk(hash, Fresh<K, V>(bucketCount));
      assert |View().cells| == bucketCount;
      assert View().cells == Fresh<K, V>(bucketCount).cells;
    }

    method Size() returns (n: nat)
      requires Valid()
      ensures n == Count(View().cells, IsLive)
    {
      n := size;
    }

    // ---------- iteration ----------

    method Begin() returns (index: nat)
      requires Valid()
      ensures index == NextLive(View().cells, 0)
    {
      index := 0;
      while index < bucketCount && !Exists(index)
        invariant index <= bucketCount
        invariant NextLive(View().cells, 0) == NextLive(View().cells, index)
      {
        index := index + 1;
      }
    }

    method Increment(current: nat) returns (index: nat)
      requires Valid() && current <= bucketCount
      ensures index == (if current == bucketCount then current else NextLive(View().cells, current + 1))
    {
      index := current;
      if index != bucketCount {
        index := index + 1;
      }
      while index != bucketCount && !Exists(index)
        invariant current <= index <= bucketCount
        invariant current < bucketCount ==> current < index
        invariant current < bucketCount ==> NextLive(View().cells, current + 1) == NextLive(View().cells, index)
        decreases bucketCount - index
      {
        index := index + 1;
      }
    }

    // ---------- whole histories ----------

    ghost predicate KeysFit(ops: seq<Op<K, V>>) {
      forall op :: op in ops && (op.Emplace? || op.Assign? || op.EraseKey?) ==> IsKey(op.key)
    }

    /** One call of a history; it fails only when a growing rehash cannot be provided for. */
    method Perform(op: Op<K, V>) returns (done: bool)
      requires Valid() && KeysFit([op])
      modifies this, buckets
      ensures Valid() && (buckets == old(buckets) || fresh(buckets))
      ensures !done <==> (op.Emplace? || op.Assign?) && old(|View().cells| == 0x4000_0000 && used >= resizeCount)
      ensures View() == if done then Apply(hash, old(View()), op) else old(View())
    {
      assert op in [op];
      done := true;
      match op
      case Emplace(k, v) =>
        var r := Emplace(k, v);
        done := r != None;
      case Assign(k, v) =>
        var r := InsertOrAssign(k, v);
        done := r != None;
      case EraseKey(k) =>
        Erase(k);
      case EraseAt(i) =>
        Delete(i);
      case Clear =>
        Clear();
    }

    /** Performs a history, up to a growth beyond 2^30 buckets. */
    method PerformAll(ops: seq<Op<K, V>>) returns (n: nat)
      requires Valid() && KeysFit(ops)
      modifies this, buckets
      ensures Valid() && n <= |ops|
      ensures View() == Run(hash, old(View()), ops[..n])
      ensures n < |ops| ==> (ops[n].Emplace? || ops[n].Assign?) && |View().cells| == 0x4000_0000
      ensures n < |ops| ==> used >= ResizeCount(0x4000_0000)
    {
      n := 0;
      ghost var t := View();
      while n < |ops|
        invariant n <= |ops| && Valid() && (buckets == old(buckets) || fresh(buckets))
        invariant View() == Run(hash, t, ops[..n])
      {
        RunNext(hash, t, ops, n);
        var done := Perform(ops[n]);
        if !done {
          return;
        }
        n := n + 1;
      }
    }

    // ---------- copying ----------

    /** Releases the buckets. */
    method Destroy()
      requires Valid()
      modifies this
      ensures Valid() && View() == Fresh(0)
      ensures buckets == if old(bucketCount) == 0 then old(buckets) else null
    {
      InitialOk(hash, Fresh<K, V>(0));
      if bucketCount == 0 {
        EmptyCounts(View());
        return;
      }
      buckets := null;
      bucketCount, resizeCount, shrinkCount, mask, size, used := 0, 0, 0, 0, 0, 0;
    }

    /** operator=: the copy has the same cells, whichever of the two copying loops ran. Before it copies buckets
        into a table without any, the original asserts that this table has no array either. */
    method CopyFrom(other: LinearHashmap<K, V>)
      requires Valid() && other.Valid() && hash == other.hash
      requires emptyKey == other.emptyKey && erasedKey == other.erasedKey
      requires this != other ==> buckets == null || buckets != other.buckets
      requires bucketCount == 0 && other.bucketCount != 0 && this != other ==> buckets == null
      modifies this, buckets
      ensures Valid() && View() == old(other.View())
      ensures this != other ==> buckets == null || buckets != other.buckets
      ensures buckets == old(buckets) || buckets == null || fresh(buckets)
    {
      if other == this {
        return;
      }
      if other.bucketCount == 0 {
        EmptyCounts(other.View());
        Destroy();
        return;
      }
      if bucketCount == other.bucketCount {
        InitializedCopy(other);
      } else {
        Destroy();
        UninitializedCopy(other);
      }
    }

    method InitializedCopy(from: LinearHashmap<K, V>)
      requires Valid() && from.Valid() && hash == from.hash && this != from
      requires emptyKey == from.emptyKey && erasedKey == from.erasedKey
      requires bucketCount == from.bucketCount != 0 && buckets != from.buckets
      modifies this`size, this`used, buckets
      ensures Valid() && View() == old(from.View())
    {
      CopyOver(from.buckets, from.View().cells);
      size, used := from.size, from.used;
    }

    /** Bucket by bucket: an equal key takes over the value; otherwise the bucket is cleared first. */
    method CopyOver(from: array<Bucket<K, V>>, ghost cells: seq<Cell<K, V>>)
      requires emptyKey != erasedKey && buckets != null && from != buckets && from.Length == buckets.Length
      requires cells == Cells(from[..], emptyKey, erasedKey)
      modifies buckets
      ensures Cells(buckets[..], emptyKey, erasedKey) == cells
    {
      for index := 0 to buckets.Length
        invariant forall j :: 0 <= j < index ==> CellOf(buckets[j], emptyKey, erasedKey) == cells[j]
      {
        if from[index].key == buckets[index].key {
          if Exists(index) {
            buckets[index] := buckets[index].(val := from[index].val);
          }
        } else {
          if !Vacant(index) {
            buckets[index] := buckets[index].(key := emptyKey);
          }
          buckets[index] := buckets[index].(key := from[index].key);
          if Exists(index) {
            buckets[index] := buckets[index].(val := from[index].val);
          }
        }
      }
      assert Cells(buckets[..], emptyKey, erasedKey) == cells;
    }

    method UninitializedCopy(from: LinearHashmap<K, V>)
      requires Valid() && from.Valid() && hash == from.hash && this != from
      requires emptyKey == from.emptyKey && erasedKey == from.erasedKey
      requires bucketCount == 0 && buckets == null && from.bucketCount != 0
      modifies this
      ensures Valid() && View() == old(from.View()) && fresh(buckets)
    {
      buckets := new Bucket<K, V>[from.bucketCount];
      bucketCount := from.bucketCount;
      resizeCount := from.resizeCount;
      shrinkCount := from.shrinkCount;
      mask := bucketCount - 1;
      CopyNew(from.buckets, from.View().cells);
      size, used := from.size, from.used;
    }

    method CopyNew(from: array<Bucket<K, V>>, ghost cells: seq<Cell<K, V>>)
      requires emptyKey != erasedKey && buckets != null && from != buckets && from.Length == buckets.Length
      requires cells == Cells(from[..], emptyKey, erasedKey)
      modifies buckets
      ensures Cells(buckets[..], emptyKey, erasedKey) == cells
    {
      for index := 0 to buckets.Length
        invariant forall j :: 0 <= j < index ==> CellOf(buckets[j], emptyKey, erasedKey) == cells[j]
      {
        buckets[index] := buckets[index].(key := from[index].key);
        if Exists(index) {
          buckets[index] := buckets[index].(val := from[index].val);
        }
      }
      assert Cells(buckets[..], emptyKey, erasedKey) == cells;
    }
  }

  lemma RunNext<K, V>(hash: K -> nat, t: Table<K, V>, ops: seq<Op<K, V>>, n: nat)
    requires n < |ops|
    ensures ops[n] in ops && Run(hash, t, ops[..n + 1]) == Apply(hash, Run(hash, t, ops[..n]), ops[n])
  {
    assert ops[..n + 1] == ops[..n] + [ops[n]];
    RunSnoc(hash, t, ops[..n], ops[n]);
  }

  /** From a new table on, in every history, up to a growth beyond 2^30 buckets, the table is what the history
      makes of it, and agrees with the finite map throughout exactly when the history is clean. */
  method Replay<K(==, 0, !new), V(0, !new)>(hash: K -> nat, initBucketCount: nat, emptyKey: K, erasedKey: K, dummy: V,
                                            ops: seq<Op<K, V>>)
    returns (h: LinearHashmap<K, V>, n: nat)
    requires emptyKey != erasedKey && FirstCount(initBucketCount) >= 0
    requires forall op :: op in ops && (op.Emplace? || op.Assign? || op.EraseKey?) ==> op.key !in {emptyKey, erasedKey}
    ensures h.Valid() && n <= |ops|
    ensures n < |ops| ==> (ops[n].Emplace? || ops[n].Assign?) && |h.View().cells| == 0x4000_0000
    ensures n < |ops| ==> h.used >= ResizeCount(0x4000_0000)
    ensures var t := Fresh(FirstCount(initBucketCount));
            && h.View() == Run(hash, t, ops[..n])
            && (CleanRun(hash, t, ops[..n]) <==> AlwaysAgrees(hash, t, ops[..n]))
  {
    h := new LinearHashmap(hash, initBucketCount, emptyKey, erasedKey, dummy);
    n := h.PerformAll(ops);
    FreshInitial<K, V>(initBucketCount);
    HistoryAgrees(hash, Fresh(FirstCount(initBucketCount)), ops[..n]);
  }

  lemma FreshInitial<K, V>(request: nat)
    requires FirstCount(request) >= 0
    ensures Initial(Fresh<K, V>(FirstCount(request)))
  {
    FirstRoomy(request);
    assert Initial(Fresh<int, int>(FirstCount(request)));
  }

  /** Bucket r is where a lookup finds key, with the value it finds. */
  ghost predicate FoundAt<K, V>(hash: K -> nat, t: Table<K, V>, key: K, r: nat) {
    && Holds(t.cells, r, key)
    && LinearTable.Get(hash, t.cells, key) == r
    && Lookup(hash, t, key) == Some(t.cells[r].val)
  }

  /** The index that an insertion returns is where a lookup then finds the key. */
  lemma SetFinds<K(!new), V(!new)>(hash: K -> nat, t: Table<K, V>, key: K, val: V, displace: bool)
    requires Ok(hash, t)
    ensures FoundAt(hash, LinearTable.Set(hash, t, key, val, displace), key, SetSlot(hash, Grown(hash, t), key))
  {
    var g := Grown(hash, t);
    GrownMeaning(hash, t);
    PlaceOk(hash, g, key, val, displace);
    PlaceLookupSame(hash, g, key, val, displace);
    GetFindsFirst(hash, Place(hash, g, key, val, displace), key);
    PlaceKeys(hash, g, key, val, displace, key);
  }

  /** The first live bucket at i or after it; the bucket count when there is none. */
  function NextLive<K, V>(cells: seq<Cell<K, V>>, i: nat): (r: nat)
    requires i <= |cells|
    ensures i <= r <= |cells|
    ensures r < |cells| ==> cells[r].Live?
    ensures forall j :: i <= j < r ==> !cells[j].Live?
    decreases |cells| - i
  {
    if i == |cells| || cells[i].Live? then i else NextLive(cells, i + 1)
  }

  /** The buckets that an iterator visits from the first live one at i or after it. */
  function Visited<K, V>(cells: seq<Cell<K, V>>, i: nat): seq<nat>
    requires i <= |cells|
    decreases |cells| - i
  {
    var r := NextLive(cells, i);
    if r == |cells| then [] else [r] + Visited(cells, r + 1)
  }

  /** s lists the live buckets from i on, each once, in bucket order. */
  ghost predicate ListsLive<K, V>(cells: seq<Cell<K, V>>, i: nat, s: seq<nat>) {
    && (forall j: nat :: j in s <==> i <= j < |cells| && cells[j].Live?)
    && (forall a, b :: 0 <= a < b < |s| ==> s[a] < s[b])
  }

  /** Iteration visits every live bucket exactly once, in bucket order. */
  lemma {:induction false} IterationVisitsAll<K, V>(cells: seq<Cell<K, V>>, i: nat)
    requires i <= |cells|
    ensures ListsLive(cells, i, Visited(cells, i))
    decreases |cells| - i
  {
    var r := NextLive(cells, i);
    if r < |cells| {
      IterationVisitsAll(cells, r + 1);
      VisitedCons(cells, i, r, Visited(cells, r + 1));
    }
  }

  /** It visits size() buckets. */
  lemma {:induction false} IterationCount<K, V>(cells: seq<Cell<K, V>>, i: nat)
    requires i <= |cells|
    ensures |Visited(cells, i)| == Count(cells, IsLive) - Count(cells[..i], IsLive)
    decreases |cells| - i
  {
    var r := NextLive(cells, i);
    CountDeadRun(cells, i, r);
    if r < |cells| {
      IterationCount(cells, r + 1);
      assert cells[..r + 1][..r] == cells[..r];
    } else {
      assert cells[..r] == cells;
    }
  }

  lemma VisitedCons<K, V>(cells: seq<Cell<K, V>>, i: nat, r: nat, rest: seq<nat>)
    requires i <= r < |cells| && cells[r].Live? && forall j :: i <= j < r ==> !cells[j].Live?
    requires ListsLive(cells, r + 1, rest)
    ensures ListsLive(cells, i, [r] + rest)
  {
    var s := [r] + rest;
    forall a, b | 0 <= a < b < |s| ensures s[a] < s[b] {
      assert s[b] == rest[b - 1] && rest[b - 1] in rest;
    }
    forall j: nat ensures j in s <==> i <= j < |cells| && cells[j].Live? {
      assert j in s <==> j == r || j in rest;
    }
  }

  lemma {:induction false} CountDeadRun<K, V>(cells: seq<Cell<K, V>>, i: nat, r: nat)
    requires i <= r <= |cells| && forall j :: i <= j < r ==> !cells[j].Live?
    ensures Count(cells[..i], IsLive) == Count(cells[..r], IsLive)
  {
    if i < r {
      CountDeadRun(cells, i, r - 1);
      assert cells[..r][..r - 1] == cells[..r - 1];
    }
  }

  /** The inner insertion of a rehash finds the new table below its growth threshold. */
  lemma ReinsertNext<K(!new), V(!new)>(hash: K -> nat, cells: seq<Cell<K, V>>, i: nat, n: nat)
    requires i < |cells| && IsPow2(n) && Count(cells, IsLive) <= ResizeCount(n)
    ensures var t := Reinsert(hash, cells[..i], Fresh(n));
            && |t.cells| == n
            && (cells[i].Live? ==>
                  && t.used < ResizeCount(n)
                  && Reinsert(hash, cells[..i + 1], Fresh(n))
                     == LinearTable.Set(hash, t, cells[i].key, cells[i].val, false))
            && (!cells[i].Live? ==> Reinsert(hash, cells[..i + 1], Fresh(n)) == t)
  {
    CountPrefix(cells, i, IsLive);
    Reinserted(hash, cells[..i], n);
    assert cells[..i + 1][..i] == cells[..i];
  }

  lemma MaskedNext(n: nat, i: nat)
    requires IsPow2(n) && i < n
    ensures BitAnd(i + 1, n - 1) == Next(n, i)
  {
    MaskIsMod(i + 1, n);
    if i + 1 < n {
      DivModUnique(i + 1, n, 0, i + 1);
    } else {
      DivModUnique(i + 1, n, 1, 0);
    }
  }

  lemma TopPower(n: nat)
    requires IsPow2(n) && n <= MAX_BUCKETS
    ensures 2 * n <= MAX_BUCKETS || n == MAX_BUCKETS
  {
    var k: nat :| Pow2(k) == n;
    Pow2Of64();
    if k < 30 {
      Pow2Mono(k, 30);
    } else {
      Pow2Mono(30, k);
    }
  }

  lemma FirstCountFits(request: nat)
    requires FirstCount(request) >= 0
    ensures FirstCount(request) <= MAX_BUCKETS
  {
    var x := request % UINT;
    if request != 0 {
      FirstCountIs(x);
      if 0 < x <= MAX_BUCKETS {
        NextPowTwoRounds(x);
        Pow2Of64();
        assert x <= Pow2(30);
      }
    }
  }

  /** The bucket counts of a rehash: up to 2^30 the request for them is met exactly, and for 2^31 it is not. */
  lemma GrowthRounds(n: nat)
    requires IsPow2(n) && 0 < n <= 2 * MAX_BUCKETS
    ensures n % UINT == n && (n <= MAX_BUCKETS ==> FirstCount(n) == n)
    ensures MAX_BUCKETS < n % UINT <= 2 * MAX_BUCKETS <==> n > MAX_BUCKETS
  {
    if n <= MAX_BUCKETS {
      NextPowTwoFixed(n);
    }
  }

  lemma {:induction false} CountPrefix<T>(s: seq<T>, i: nat, p: T -> bool)
    requires i < |s|
    ensures Count(s[..i], p) + (if p(s[i]) then 1 else 0) <= Count(s, p)
  {
    var n := |s| - 1;
    if i < n {
      CountPrefix(s[..n], i, p);
      assert s[..n][..i] == s[..i];
    }
  }
}
