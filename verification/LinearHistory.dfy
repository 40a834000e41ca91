/** Whole histories of the open-addressing table against a finite map. */
module LinearHistory {
  import opened Bits
  import opened Counting
  import opened LinearTable
  import opened Options
  import opened LinearTableFacts

  /** The mutating calls. operator[] inserts like Emplace, with the default value; EraseAt erases through
      an iterator that stands at a bucket. */
  datatype Op<K, V> = Emplace(key: K, val: V) | Assign(key: K, val: V) | EraseKey(key: K) | EraseAt(index: nat) | Clear

  function Apply<K(==), V>(hash: K -> nat, t: Table<K, V>, op: Op<K, V>): Table<K, V> {
    match op
    case Emplace(k, v) => Set(hash, t, k, v, false)
    case Assign(k, v) => Set(hash, t, k, v, true)
    case EraseKey(k) => Erase(hash, t, k)
    case EraseAt(i) => Delete(hash, t, i)
    case Clear => Fresh(|t.cells|)
  }

  function Run<K(==), V>(hash: K -> nat, t: Table<K, V>, ops: seq<Op<K, V>>): Table<K, V> {
    if ops == [] then t else Apply(hash, Run(hash, t, ops[..|ops| - 1]), ops[|ops| - 1])
  }

  /** The same calls on a finite map; t says which key an iterator stands at. */
  function MapApply<K(==), V>(t: Table<K, V>, m: map<K, V>, op: Op<K, V>): map<K, V> {
    match op
    case Emplace(k, v) => if k in m then m else m[k := v]
    case Assign(k, v) => m[k := v]
    case EraseKey(k) => m - {k}
    case EraseAt(i) => if i < |t.cells| && t.cells[i].Live? then m - {t.cells[i].key} else m
    case Clear => map[]
  }

  function MapRun<K(==), V>(hash: K -> nat, t: Table<K, V>, ops: seq<Op<K, V>>): map<K, V> {
    if ops == [] then map[]
    else
      var init := ops[..|ops| - 1];
      MapApply(Run(hash, t, init), MapRun(hash, t, init), ops[|ops| - 1])
  }

  ghost predicate CleanOp<K, V>(hash: K -> nat, t: Table<K, V>, op: Op<K, V>) {
    op.Emplace? || op.Assign? ==> Clean(hash, t, op.key)
  }

  /** Every insertion of the history is clean in the table it meets. */
  ghost predicate CleanRun<K, V>(hash: K -> nat, t: Table<K, V>, ops: seq<Op<K, V>>) {
    ops == [] || (CleanRun(hash, t, ops[..|ops| - 1])
                  && CleanOp(hash, Run(hash, t, ops[..|ops| - 1]), ops[|ops| - 1]))
  }

  ghost predicate Agrees<K(!new), V>(hash: K -> nat, t: Table<K, V>, m: map<K, V>) {
    forall k :: Lookup(hash, t, k) == (if k in m then Some(m[k]) else None)
  }

  /** A newly constructed table: no buckets, or a power of two of empty ones. */
  ghost predicate Initial<K, V>(t: Table<K, V>) {
    t == Fresh(|t.cells|) && (t.cells != [] ==> IsPow2(|t.cells|))
  }

  lemma InitialOk<K(!new), V>(hash: K -> nat, t: Table<K, V>)
    requires Initial(t)
    ensures Ok(hash, t) && Unique(t.cells) && Agrees(hash, t, map[])
  {
    if t.cells != [] {
      FreshOk<K, V>(hash, |t.cells|);
    }
    forall k ensures Lookup(hash, t, k) == None {
      LookupNone(hash, t, k);
    }
  }

  lemma ApplyOk<K(!new), V(!new)>(hash: K -> nat, t: Table<K, V>, op: Op<K, V>)
    requires Ok(hash, t)
    ensures Ok(hash, Apply(hash, t, op))
  {
    match op
    case Emplace(k, v) => SetMeaning(hash, t, k, v, false);
    case Assign(k, v) => SetMeaning(hash, t, k, v, true);
    case EraseKey(k) => EraseRemoves(hash, t, k);
    case EraseAt(i) => DeleteMeaning(hash, t, i);
    case Clear => InitialOk(hash, Fresh<K, V>(|t.cells|));
  }

  /** What the invariant says: size and used number the live and the non-empty buckets, and used stays within
      the threshold and below the bucket count. */
  lemma OkCounts<K, V>(hash: K -> nat, t: Table<K, V>)
    requires Ok(hash, t)
    ensures t.size == |set i | 0 <= i < |t.cells| && t.cells[i].Live?|
    ensures t.used == |set i | 0 <= i < |t.cells| && !t.cells[i].Empty?|
    ensures t.cells != [] ==> t.used <= ResizeCount(|t.cells|) < |t.cells|
  {
    CountIsSize(t.cells, IsLive, set i | 0 <= i < |t.cells| && t.cells[i].Live?);
    CountIsSize(t.cells, IsUsed, set i | 0 <= i < |t.cells| && !t.cells[i].Empty?);
    if t.cells != [] {
      Thresholds(|t.cells|);
    }
  }

  /** And no empty bucket lies on the way from where a stored key's hash leads to the bucket that holds it. */
  lemma OkReaches<K, V>(hash: K -> nat, t: Table<K, V>, i: nat, d: nat, e: nat)
    requires Ok(hash, t) && i < |t.cells| && t.cells[i].Live? && e < d < |t.cells|
    requires Slot(|t.cells|, hash(t.cells[i].key) % |t.cells|, d) == i
    ensures !t.cells[Slot(|t.cells|, hash(t.cells[i].key) % |t.cells|, e)].Empty?
  {
    assert Reached(hash, t.cells, i);
    assert Dist(|t.cells|, hash(t.cells[i].key) % |t.cells|, i) == d;
  }

  /** The structural invariant holds after every history, clean or not. */
  lemma {:induction false} HistoryOk<K(!new), V(!new)>(hash: K -> nat, t: Table<K, V>, ops: seq<Op<K, V>>)
    requires Initial(t)
    ensures Ok(hash, Run(hash, t, ops))
  {
    if ops == [] {
      InitialOk(hash, t);
    } else {
      HistoryOk(hash, t, ops[..|ops| - 1]);
      ApplyOk(hash, Run(hash, t, ops[..|ops| - 1]), ops[|ops| - 1]);
    }
  }

  /** One call on a table that agrees with a map: it keeps keys unique exactly when it is clean, and
      then acts as on the map. */
  lemma ApplyAgrees<K(!new), V(!new)>(hash: K -> nat, t: Table<K, V>, op: Op<K, V>, m: map<K, V>)
    requires Ok(hash, t) && Unique(t.cells) && Agrees(hash, t, m)
    ensures Unique(Apply(hash, t, op).cells) <==> CleanOp(hash, t, op)
    ensures CleanOp(hash, t, op) ==> Agrees(hash, Apply(hash, t, op), MapApply(t, m, op))
  {
    match op
    case Emplace(k, v) => SetUniqueMeaning(hash, t, k, v, false);
    case Assign(k, v) => SetUniqueMeaning(hash, t, k, v, true);
    case EraseKey(k) => EraseRemoves(hash, t, k);
    case EraseAt(i) => DeleteAgrees(hash, t, i, m);
    case Clear => InitialOk(hash, Fresh<K, V>(|t.cells|));
  }

  /** What each call does to lookups, on unique keys and when it is clean. */
  lemma ApplyMeaning<K(!new), V(!new)>(hash: K -> nat, t: Table<K, V>, op: Op<K, V>, k: K)
    requires Ok(hash, t) && Unique(t.cells) && CleanOp(hash, t, op)
    ensures Lookup(hash, Apply(hash, t, op), k) ==
            match op
            case Emplace(key, val) => if k == key && Lookup(hash, t, k) == None then Some(val) else Lookup(hash, t, k)
            case Assign(key, val) => if k == key then Some(val) else Lookup(hash, t, k)
            case EraseKey(key) => if k == key then None else Lookup(hash, t, k)
            case EraseAt(i) =>
              if i < |t.cells| && t.cells[i].Live? && k == t.cells[i].key then None else Lookup(hash, t, k)
            case Clear => None
  {
    match op
    case Emplace(key, val) => SetUniqueMeaning(hash, t, key, val, false);
    case Assign(key, val) => SetUniqueMeaning(hash, t, key, val, true);
    case EraseKey(key) => EraseRemoves(hash, t, key);
    case EraseAt(i) =>
      DeleteMeaning(hash, t, i);
      if i < |t.cells| && t.cells[i].Live? {
        assert Holds(t.cells, i, t.cells[i].key) && !HeldElsewhere(t.cells, i, t.cells[i].key);
        LookupNone(hash, Delete(hash, t, i), t.cells[i].key);
      }
    case Clear =>
      InitialOk(hash, Fresh<K, V>(|t.cells|));
  }

  /** On any table, duplicates included: a key assigned is found with its value, and a key emplaced is found. */
  lemma ApplyFinds<K(!new), V(!new)>(hash: K -> nat, t: Table<K, V>, key: K, val: V)
    requires Ok(hash, t)
    ensures Lookup(hash, Apply(hash, t, Assign(key, val)), key) == Some(val)
    ensures Lookup(hash, Apply(hash, t, Emplace(key, val)), key) != None
  {
    SetMeaning(hash, t, key, val, true);
    SetMeaning(hash, t, key, val, false);
    LookupNone(hash, Set(hash, t, key, val, false), key);
  }

  /** Erasing through an iterator, on unique keys, erases the key that it stands at. */
  lemma DeleteAgrees<K(!new), V(!new)>(hash: K -> nat, t: Table<K, V>, i: nat, m: map<K, V>)
    requires Ok(hash, t) && Unique(t.cells) && Agrees(hash, t, m)
    ensures Unique(Delete(hash, t, i).cells)
    ensures Agrees(hash, Delete(hash, t, i), MapApply(t, m, EraseAt(i)))
  {
    DeleteMeaning(hash, t, i);
    if i < |t.cells| && t.cells[i].Live? {
      var key := t.cells[i].key;
      assert Holds(t.cells, i, key) && !HeldElsewhere(t.cells, i, key);
      LookupNone(hash, Delete(hash, t, i), key);
    }
  }

  /** In every clean history the table agrees with the finite map, and its size with the map's size. */
  lemma {:induction false} CleanAgrees<K(!new), V(!new)>(hash: K -> nat, t: Table<K, V>, ops: seq<Op<K, V>>)
    requires Initial(t) && CleanRun(hash, t, ops)
    ensures Ok(hash, Run(hash, t, ops)) && Unique(Run(hash, t, ops).cells)
    ensures AgreesAfter(hash, t, ops)
  {
    var u := Run(hash, t, ops);
    if ops == [] {
      InitialOk(hash, t);
    } else {
      var init, op := ops[..|ops| - 1], ops[|ops| - 1];
      CleanAgrees(hash, t, init);
      ApplyOk(hash, Run(hash, t, init), op);
      ApplyAgrees(hash, Run(hash, t, init), op, MapRun(hash, t, init));
    }
    SizeAgrees(hash, u, MapRun(hash, t, ops));
  }

  /** After the history, lookups and size are those of the finite map. */
  ghost predicate AgreesAfter<K(!new), V>(hash: K -> nat, t: Table<K, V>, ops: seq<Op<K, V>>) {
    && Agrees(hash, Run(hash, t, ops), MapRun(hash, t, ops))
    && Run(hash, t, ops).size == |MapRun(hash, t, ops)|
  }

  /** They are so after every prefix of the history. */
  ghost predicate AlwaysAgrees<K(!new), V>(hash: K -> nat, t: Table<K, V>, ops: seq<Op<K, V>>) {
    forall n :: 0 <= n <= |ops| ==> AgreesAfter(hash, t, ops[..n])
  }

  lemma PrefixesSnoc<T>(holds: seq<T> -> bool, init: seq<T>, x: T)
    ensures (forall n :: 0 <= n <= |init| + 1 ==> holds((init + [x])[..n]))
            <==> (forall n :: 0 <= n <= |init| ==> holds(init[..n])) && holds(init + [x])
  {
    var s := init + [x];
    assert s[..|s|] == s;
    forall n | 0 <= n <= |init| ensures s[..n] == init[..n] { }
    assert (forall n :: 0 <= n <= |init| ==> holds(init[..n])) ==>
             forall n :: 0 <= n <= |init| ==> holds(s[..n]);
    assert (forall n :: 0 <= n <= |init| + 1 ==> holds(s[..n])) ==>
             forall n :: 0 <= n <= |init| ==> holds(s[..n]) && s[..n] == init[..n];
  }

  lemma AlwaysAgreesSnoc<K(!new), V>(hash: K -> nat, t: Table<K, V>, init: seq<Op<K, V>>, op: Op<K, V>)
    ensures AlwaysAgrees(hash, t, init + [op]) <==> AlwaysAgrees(hash, t, init) && AgreesAfter(hash, t, init + [op])
  {
    PrefixesSnoc(ops => AgreesAfter(hash, t, ops), init, op);
  }

  /** A history agrees with the finite map throughout, in lookups and size, exactly when it is clean. */
  lemma {:induction false} HistoryAgrees<K(!new), V(!new)>(hash: K -> nat, t: Table<K, V>, ops: seq<Op<K, V>>)
    requires Initial(t)
    ensures CleanRun(hash, t, ops) <==> AlwaysAgrees(hash, t, ops)
  {
    if ops == [] {
      CleanAgrees(hash, t, ops);
    } else {
      var init, op := ops[..|ops| - 1], ops[|ops| - 1];
      assert ops == init + [op];
      HistoryAgrees(hash, t, init);
      AlwaysAgreesSnoc(hash, t, init, op);
      if CleanRun(hash, t, ops) {
        CleanAgrees(hash, t, ops);
      } else if AlwaysAgrees(hash, t, ops) {
        CleanAgrees(hash, t, init);
        HistoryOk(hash, t, ops);
        AgreesUnique(hash, Run(hash, t, ops), MapRun(hash, t, ops));
        ApplyAgrees(hash, Run(hash, t, init), op, MapRun(hash, t, init));
        assert false;
      }
    }
  }

  /** Keys are unique after every prefix of the history. */
  ghost predicate AlwaysUnique<K, V>(hash: K -> nat, t: Table<K, V>, ops: seq<Op<K, V>>) {
    forall n :: 0 <= n <= |ops| ==> Unique(Run(hash, t, ops[..n]).cells)
  }

  lemma AlwaysUniqueSnoc<K(!new), V(!new)>(hash: K -> nat, t: Table<K, V>, init: seq<Op<K, V>>, op: Op<K, V>)
    ensures AlwaysUnique(hash, t, init + [op]) <==>
              AlwaysUnique(hash, t, init) && Unique(Run(hash, t, init + [op]).cells)
  {
    PrefixesSnoc(ops => Unique(Run(hash, t, ops).cells), init, op);
  }

  /** A history keeps keys unique throughout exactly when it is clean. */
  lemma {:induction false} HistoryUnique<K(!new), V(!new)>(hash: K -> nat, t: Table<K, V>, ops: seq<Op<K, V>>)
    requires Initial(t)
    ensures CleanRun(hash, t, ops) <==> AlwaysUnique(hash, t, ops)
  {
    if ops == [] {
      InitialOk(hash, t);
    } else {
      var init, op := ops[..|ops| - 1], ops[|ops| - 1];
      assert ops == init + [op];
      HistoryUnique(hash, t, init);
      AlwaysUniqueSnoc(hash, t, init, op);
      if CleanRun(hash, t, init) {
        CleanAgrees(hash, t, init);
        ApplyAgrees(hash, Run(hash, t, init), op, MapRun(hash, t, init));
      }
    }
  }

  // ---------- size ----------

  function LiveKeys<K(==), V>(cells: seq<Cell<K, V>>): set<K> {
    if cells == [] then {}
    else
      var c := cells[|cells| - 1];
      LiveKeys(cells[..|cells| - 1]) + (if c.Live? then {c.key} else {})
  }

  lemma {:induction false} LiveKeysAre<K, V>(cells: seq<Cell<K, V>>, k: K)
    ensures k in LiveKeys(cells) <==> HasKey(cells, k)
  {
    if cells != [] {
      var init, c := cells[..|cells| - 1], cells[|cells| - 1];
      assert cells == init + [c];
      LiveKeysAre(init, k);
      HasKeySnoc(init, c, k);
    }
  }

  lemma {:induction false} UniqueCount<K, V>(cells: seq<Cell<K, V>>)
    requires Unique(cells)
    ensures |LiveKeys(cells)| == Count(cells, IsLive)
  {
    if cells != [] {
      var init, c := cells[..|cells| - 1], cells[|cells| - 1];
      UniqueCount(init);
      if c.Live? {
        LiveKeysAre(init, c.key);
        forall j: nat ensures !Holds(init, j, c.key) {
          assert j < |init| ==> cells[j] == init[j];
        }
      }
    }
  }

  /** The live keys number the live cells only when no two cells hold one key. */
  lemma {:induction false} CountUnique<K, V>(cells: seq<Cell<K, V>>)
    ensures |LiveKeys(cells)| <= Count(cells, IsLive)
    ensures |LiveKeys(cells)| == Count(cells, IsLive) ==> Unique(cells)
  {
    if cells != [] {
      var init, c := cells[..|cells| - 1], cells[|cells| - 1];
      CountUnique(init);
      if c.Live? && |LiveKeys(cells)| == Count(cells, IsLive) {
        LiveKeysAre(init, c.key);
        forall j | 0 <= j < |init| && init[j].Live? ensures init[j].key != c.key {
          assert Holds(init, j, init[j].key);
        }
      }
    }
  }

  /** A table that agrees with a map, in size too, has unique keys. */
  lemma AgreesUnique<K(!new), V>(hash: K -> nat, t: Table<K, V>, m: map<K, V>)
    requires Ok(hash, t) && Agrees(hash, t, m) && t.size == |m|
    ensures Unique(t.cells)
  {
    CountUnique(t.cells);
    KeysAgree(hash, t, m);
  }

  lemma KeysAgree<K(!new), V>(hash: K -> nat, t: Table<K, V>, m: map<K, V>)
    requires Ok(hash, t) && Agrees(hash, t, m)
    ensures |LiveKeys(t.cells)| == |m|
  {
    forall k ensures k in LiveKeys(t.cells) <==> k in m.Keys {
      LiveKeysAre(t.cells, k);
      LookupNone(hash, t, k);
    }
    assert LiveKeys(t.cells) == m.Keys;
  }

  lemma SizeAgrees<K(!new), V>(hash: K -> nat, t: Table<K, V>, m: map<K, V>)
    requires Ok(hash, t) && Unique(t.cells) && Agrees(hash, t, m)
    ensures t.size == |m|
  {
    UniqueCount(t.cells);
    KeysAgree(hash, t, m);
  }

  // ---------- how few buckets a table can have ----------

  /** No buckets yet, or at least eight of them. */
  predicate Roomy<K, V>(t: Table<K, V>) {
    t.cells == [] || |t.cells| >= 8
  }

  lemma HalfOfMany(n: nat)
    requires IsPow2(n) && n > 8
    ensures n / 2 >= 8
  {
    Pow2Double(n);
    Pow2Double(n / 2);
    Pow2Double(n / 4);
    assert n == 8 * (n / 8);
  }

  lemma ApplyRoomy<K(!new), V(!new)>(hash: K -> nat, t: Table<K, V>, op: Op<K, V>)
    requires Ok(hash, t) && Roomy(t)
    ensures Roomy(Apply(hash, t, op))
  {
    if op.Emplace? || op.Assign? {
      SetLength(hash, t, op.key, op.val, op.Assign?);
    } else if op.EraseKey? || op.EraseAt? {
      DeleteLength(hash, t, if op.EraseKey? then Get(hash, t.cells, op.key) else op.index);
    }
  }

  /** An insertion keeps the bucket count, starts with eight, or doubles it. */
  lemma SetLength<K(!new), V(!new)>(hash: K -> nat, t: Table<K, V>, key: K, val: V, displace: bool)
    requires Ok(hash, t)
    ensures var n := |Set(hash, t, key, val, displace).cells|;
            n == (if t.used < ResizeCount(|t.cells|) then |t.cells| else if t.cells == [] then 8 else 2 * |t.cells|)
  {
    GrownMeaning(hash, t);
    PlaceOk(hash, Grown(hash, t), key, val, displace);
    if t.used >= ResizeCount(|t.cells|) {
      GrownLength(hash, t);
    }
  }

  lemma GrownLength<K(!new), V(!new)>(hash: K -> nat, t: Table<K, V>)
    requires Ok(hash, t) && t.used >= ResizeCount(|t.cells|)
    ensures |Grown(hash, t).cells| == if t.cells == [] then 8 else 2 * |t.cells|
  {
    SizeWithinUsed(hash, t);
    if t.cells == [] {
      assert Pow2(3) == 8;
      ResizeMeaning(hash, t, 8);
    } else {
      Thresholds(|t.cells|);
      Pow2Double(|t.cells|);
      ResizeMeaning(hash, t, 2 * |t.cells|);
    }
  }

  /** An erasure keeps the bucket count, or halves it down to no fewer than eight. */
  lemma DeleteLength<K(!new), V(!new)>(hash: K -> nat, t: Table<K, V>, i: nat)
    requires Ok(hash, t)
    ensures var n := |Delete(hash, t, i).cells|; n == |t.cells| || (n == |t.cells| / 2 && n >= 8)
  {
    if i < |t.cells| && t.cells[i].Live? {
      UnlinkMeaning(hash, t, i);
      var u := Unlink(t, i);
      if u.size < ShrinkCount(|t.cells|) && |t.cells| > 8 {
        Thresholds(|t.cells|);
        Pow2Double(|t.cells|);
        HalfOfMany(|t.cells|);
        ResizeMeaning(hash, u, |t.cells| / 2);
      }
    }
  }

  lemma {:induction false} RunRoomy<K(!new), V(!new)>(hash: K -> nat, t: Table<K, V>, ops: seq<Op<K, V>>)
    requires Initial(t) && Roomy(t)
    ensures Roomy(Run(hash, t, ops))
  {
    if ops != [] {
      RunRoomy(hash, t, ops[..|ops| - 1]);
      HistoryOk(hash, t, ops[..|ops| - 1]);
      ApplyRoomy(hash, Run(hash, t, ops[..|ops| - 1]), ops[|ops| - 1]);
    }
  }

  /** A bucket count never lies between 1 and 7, in any history, exactly when it does not at the start. */
  lemma AlwaysRoomy<K(!new), V(!new)>(hash: K -> nat, t: Table<K, V>)
    requires Initial(t)
    ensures (forall ops :: Roomy(Run(hash, t, ops))) <==> Roomy(t)
  {
    if Roomy(t) {
      forall ops ensures Roomy(Run(hash, t, ops)) {
        RunRoomy(hash, t, ops);
      }
    } else {
      assert !Roomy(Run(hash, t, []));
    }
  }

  /** It does not at the start exactly when the request, cut to 32 bits, is more than four or there was none;
      and only requests from 2^30 + 1 to 2^31 cannot be met. */
  lemma FirstRoomy(request: nat)
    ensures 0 < request % UINT <= 0x4000_0000 ==>
              FirstCount(request) >= 0 && LeastPow2(request % UINT, FirstCount(request))
    ensures FirstCount(request) == 0 <==> request == 0 || request % UINT > 0x8000_0000
    ensures FirstCount(request) < 0 <==> 0x4000_0000 < request % UINT <= 0x8000_0000
    ensures FirstCount(request) >= 0 ==> Initial(Fresh<int, int>(FirstCount(request)))
    ensures FirstCount(request) >= 0 ==>
              (Roomy(Fresh<int, int>(FirstCount(request))) <==> request == 0 || request % UINT > 4)
  {
    if request != 0 {
      FirstCountIs(request % UINT);
      if 0 < request % UINT <= 0x4000_0000 {
        NextPowTwoRounds(request % UINT);
      }
    }
  }

  /** A table with one bucket, asked for by a request of one. */
  lemma OneBucket()
    ensures FirstCount(1) == 1 && !Roomy(Fresh<int, int>(1))
  {
  }

  lemma FirstCountIs(x: nat)
    requires x < UINT
    ensures x <= 0x4000_0000 ==> NextPowTwo(x) >= 1 && IsPow2(NextPowTwo(x)) && (NextPowTwo(x) < 8 <==> x <= 4)
    ensures 0x4000_0000 < x <= 0x8000_0000 ==> NextPowTwo(x) < 0
    ensures x > 0x8000_0000 ==> NextPowTwo(x) == 0
  {
    Pow2Of64();
    if x == 0 {
      assert Pow2(0) == 1;
    } else {
      BitLenBounds(x - 1);
      ShortBitLen(x - 1, 32);
      if x <= 4 {
        ShortBitLen(x - 1, 2);
        Pow2Mono(BitLen(x - 1), 2);
      } else {
        assert Pow2(2) == 4 && Pow2(3) == 8;
        if BitLen(x - 1) <= 2 { Pow2Mono(BitLen(x - 1), 2); }
        Pow2Mono(3, BitLen(x - 1));
      }
      if x <= 0x4000_0000 {
        ShortRound(x);
        NextPowTwoRounds(x);
      } else {
        HighCount(x);
      }
    }
  }

  lemma HighCount(x: nat)
    requires 0x4000_0000 < x < UINT
    ensures x <= 0x8000_0000 ==> NextPowTwo(x) < 0
    ensures x > 0x8000_0000 ==> NextPowTwo(x) == 0
  {
    Pow2Of64();
    LongBitLen(x - 1);
    BitLenBounds(x - 1);
    if x <= 0x8000_0000 {
      ShortBitLen(x - 1, 31);
    }
  }

  // ---------- the failing family, in a table of eight buckets ----------

  /** Eight buckets, of which all but the first two are empty. */
  function Eight<V>(c0: Cell<int, V>, c1: Cell<int, V>, size: nat, used: nat): Table<int, V> {
    Table([c0, c1, Empty, Empty, Empty, Empty, Empty, Empty], size, used)
  }

  /** k hashes to the first of eight buckets. */
  ghost predicate HomeZero(k: int) {
    Home(SizeT, k, 8) == 0
  }

  lemma FirstBucket<V>(c0: Cell<int, V>, c1: Cell<int, V>, size: nat, used: nat, k: int, v: V)
    requires HomeZero(k) && used < 6 && !c0.Live?
    ensures Set(SizeT, Eight(c0, c1, size, used), k, v, false)
         == Eight(Live(k, v), c1, size + 1, used + (if c0.Empty? then 1 else 0))
  {
    var t := Eight(c0, c1, size, used);
    assert Slot(8, 0, 0) == 0;
    assert SetSlot(SizeT, t, k) == 0;
  }

  lemma SecondBucket<V>(c0: Cell<int, V>, k: int, v: V)
    requires HomeZero(k) && c0.Live? && c0.key != k
    ensures Set(SizeT, Eight(c0, Empty, 1, 1), k, v, false) == Eight(c0, Live(k, v), 2, 2)
  {
    var t := Eight(c0, Empty, 1, 1);
    assert Slot(8, 0, 0) == 0 && Slot(8, 0, 1) == 1;
    assert Probe(t.cells, 0, k, true, 1) == 1;
    assert SetSlot(SizeT, t, k) == 1;
  }

  lemma FirstFound<V>(k: int, v: V, c1: Cell<int, V>)
    requires HomeZero(k)
    ensures Lookup(SizeT, Eight(Live(k, v), c1, 2, 2), k) == Some(v)
    ensures Erase(SizeT, Eight(Live(k, v), c1, 2, 2), k) == Eight(Erased, c1, 1, 2)
  {
    assert Slot(8, 0, 0) == 0;
    assert Probe(Eight(Live(k, v), c1, 2, 2).cells, 0, k, false, 0) == 0;
  }

  lemma SecondFound<V>(k: int, v: V)
    requires HomeZero(k)
    ensures Lookup(SizeT, Eight(Erased, Live(k, v), 1, 2), k) == Some(v)
  {
    var t := Eight(Erased, Live(k, v), 1, 2);
    assert Slot(8, 0, 0) == 0 && Slot(8, 0, 1) == 1;
    assert Probe(t.cells, 0, k, false, 1) == 1;
  }

  lemma RunSnoc<K, V>(hash: K -> nat, t: Table<K, V>, ops: seq<Op<K, V>>, op: Op<K, V>)
    ensures Run(hash, t, ops + [op]) == Apply(hash, Run(hash, t, ops), op)
  {
    assert (ops + [op])[..|ops|] == ops;
  }

  lemma MapRunSnoc<K, V>(hash: K -> nat, t: Table<K, V>, ops: seq<Op<K, V>>, op: Op<K, V>)
    ensures MapRun(hash, t, ops + [op]) == MapApply(Run(hash, t, ops), MapRun(hash, t, ops), op)
  {
    assert (ops + [op])[..|ops|] == ops;
  }

  /** Emplace a and b with the same home, erase a, emplace b again. */
  function Colliding<V>(a: int, b: int, u: V, v: V, w: V): seq<Op<int, V>> {
    [] + [Emplace(a, u)] + [Emplace(b, v)] + [EraseKey(a)] + [Emplace(b, w)]
  }

  lemma CollidingRun<V>(t0: Table<int, V>, a: int, b: int, u: V, v: V, w: V)
    requires a != b && HomeZero(a) && HomeZero(b) && t0 == Eight(Empty, Empty, 0, 0)
    ensures Run(SizeT, t0, Colliding(a, b, u, v, w)) == Eight(Live(b, w), Live(b, v), 2, 2)
  {
    FirstBucket(Empty, Empty, 0, 0, a, u);
    SecondBucket(Live(a, u), b, v);
    FirstFound(a, u, Live(b, v));
    FirstBucket(Erased, Live(b, v), 1, 2, b, w);
    RunOfFour(t0, Emplace(a, u), Emplace(b, v), EraseKey(a), Emplace(b, w));
  }

  lemma RunOfFour<V>(t: Table<int, V>, a: Op<int, V>, b: Op<int, V>, c: Op<int, V>, d: Op<int, V>)
    ensures var t2 := Apply(SizeT, Apply(SizeT, t, a), b);
            Run(SizeT, t, [] + [a] + [b] + [c] + [d]) == Apply(SizeT, Apply(SizeT, t2, c), d)
  {
    RunSnoc(SizeT, t, [], a);
    RunSnoc(SizeT, t, [] + [a], b);
    RunSnoc(SizeT, t, [] + [a] + [b], c);
    RunSnoc(SizeT, t, [] + [a] + [b] + [c], d);
  }

  lemma CollidingMap<V>(t: Table<int, V>, a: int, b: int, u: V, v: V, w: V)
    requires a != b
    ensures MapRun(SizeT, t, Colliding(a, b, u, v, w)) == map[b := v]
  {
    MapRunSnoc(SizeT, t, [], Emplace(a, u));
    MapRunSnoc(SizeT, t, [] + [Emplace(a, u)], Emplace(b, v));
    MapRunSnoc(SizeT, t, [] + [Emplace(a, u)] + [Emplace(b, v)], EraseKey(a));
    MapRunSnoc(SizeT, t, [] + [Emplace(a, u)] + [Emplace(b, v)] + [EraseKey(a)], Emplace(b, w));
  }

  /** Erasing a leaves a tombstone ahead of b; emplacing b again, which a map would ignore, occupies
      the tombstone; and one erase of b then leaves b in the table with its earlier value. */
  lemma DuplicateAfterErase<V>(a: int, b: int, u: V, v: V, w: V)
    requires a != b && HomeZero(a) && HomeZero(b)
    ensures var t := Run(SizeT, Eight(Empty, Empty, 0, 0), Colliding(a, b, u, v, w));
            && MapRun(SizeT, Eight(Empty, Empty, 0, 0), Colliding(a, b, u, v, w)) == map[b := v]
            && Lookup(SizeT, t, b) == Some(w)
            && !Unique(t.cells)
            && Lookup(SizeT, Erase(SizeT, t, b), b) == Some(v)
  {
    CollidingRun(Eight(Empty, Empty, 0, 0), a, b, u, v, w);
    CollidingMap(Eight(Empty, Empty, 0, 0), a, b, u, v, w);
    FirstFound(b, w, Live(b, v));
    SecondFound(b, v);
    var t := Eight(Live(b, w), Live(b, v), 2, 2);
    assert t.cells[0].Live? && t.cells[1].Live? && t.cells[0].key == t.cells[1].key;
  }

  /** Such keys exist: 0 and 8. */
  lemma CollidingKeys()
    ensures HomeZero(0) && HomeZero(8)
  {
  }
}
